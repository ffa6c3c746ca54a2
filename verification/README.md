# A model of the RISC-V emulator and its GDB stub

The project models the parts of the emulator whose behaviour depends on history, and proves that each of
them agrees with something much simpler.

* **The machine.** The decoder, the arithmetic unit, the CSR file, byte-masked memory in pages that are
  allocated on first touch, the platform's address map, the clock with its latches, the fetch cache and the
  CPU step. `Words`, `Alu`, `Decode`, `Encoding`, `Csr`, `BlockMemory`, `Clock`, `Bus`, `LoadStore`, `Fetch`
  and `Cpu` hold the components, each as a class with the source's fields next to the function that
  specifies it. `Isa` states the results of the ISA by instruction field, on its own, and `Retire` proves
  for every kind of instruction what one step leaves behind. The theorems over steps and runs are in
  `Traps`, `Transparency`, `LoopDetector`, `Debugger` and `Emulator`.
* **The packet codec.** `PacketText` and `PacketEncoding` are the run-length encoder, `PacketRoundTrip` says
  what a receiver that follows section E.1 of the GDB Remote Serial Protocol makes of its packets, and
  `PacketDecoding` is the streaming decoder.
* **The agent-expression machine.** `Expression` is one instruction, `ExpressionMachine` the interpreter loop,
  `StandardOperators` the operators of section F.2 of the GDB Agent Expression Mechanism, written down on
  their own and compared with the interpreter's, and `ExpressionTheorems` what postfix code computes.
* **Watchpoints.** `Watchpoints` is the range comparison as the order of a map, the commands on it and when a
  report is right; `WatchCheck` is the check after a CPU cycle.

Every mutating component is a class or a method whose postcondition equates the new state with a function of
the old one. What the source promises is then proved about those functions, for every input, run or
interleaving.

## Where the code is not what its documentation or the standards say

The model follows the code. Each of these is a lemma, or visible in the named function.

* A string with two equal escape characters in a row (`*`, `$`, `}`, `#`) is not encoded reversibly:
  `PacketRoundTrip.EncodeRoundTrip` gives the exact condition. The decoder does not expand run lengths, so it
  reads the encoder's own packets back exactly under the condition of `PacketDecoding.DecodesOwnEncoderIff`.
* `mulh` and `mulhsu` zero-extend their operands: `Alu.MulHighAgrees`, `Alu.MulHighSignedUnsignedAgrees`.
* `sub`, `div`, `rem`, the shifts and `less` of agent expressions take their operands the wrong way round, and
  shifts look at five bits of the width only: `StandardOperators.ConformsIff` gives for each operator exactly
  the operands for which that does no harm, `ReversedUnsigned`, `ReversedSigned` and `ReversedShifts` an
  example for each.
* A decoded `fence.i` does not invalidate the fetch cache, so rewritten code stays unnoticed:
  `Transparency.FenceIKeepsCache`, `Transparency.RewrittenCodeIsStale`.
* GDB's memory-write packet succeeds only for at most one, aligned byte, and its memory-read packet delivers
  nothing from an unaligned address: `LoadStore.DebuggerWritesOneByte`, `LoadStore.DebuggerReadsRam`.
* Watchpoints are reported and missed wrongly: `Watchpoints.ReportRightIff` says for every map and access exactly
  when a report is right, `WatchCheck.CheckRightIff` the same for the check after a CPU cycle, which also runs
  after traps; `Watchpoints.AloneIsRight` gives a guard that suffices; `NeighbourIsReported`,
  `WatchedStoreIsMissed`, `LastWordGoesWrong`, `TopWatchpointReportsAll` and `WatchCheck.TrappedLoadIsReported`
  show failures. After a load or store without a width the check throws: `WatchCheck.CheckThrowsIff`.
* The infinite-loop detector also fires on some loops that end: `LoopDetector.DetectorExact` says exactly when,
  `LoopDetector.JumpOnceFires` is an example, and `LoopDetector.WaitEndsIff` treats loops that wait for the timer.
* The capture mode `Exception_only`, documented to catch exceptions except `ecall`, captures interrupts instead:
  `Emulator.ExceptionOnlyIsInverted`.
* `mret` clears mpie (`Traps.MretBits`), `jalr` keeps bit 0 of its target (`Decode.JalrTargetIff`), a write to
  mstatus returns the new value (`Csr.StatusAnswerIff`), CSR immediates are sign-extended
  (`Decode.CsrImmediateIff`) and `csrrw` from `x0` does not write (`Decode.WriteFromX0`, `Csr.WriteFromX0Iff`).
* `Fill_policy::None` is documented to leave garbage in a page; the page is value-initialised, so it holds
  zeros (`BlockMemory.Filler`).

## Model

| member | source | states |
|---|---|---|
| Transparency.RunTransparent | lib/core/memory.cpp:133-167 | Over any number of cycles in which no completed store falls into a page valid in the fetch cache, the cached machine reports the same result at every cycle and has the same registers, CSRs, pc and devices as one that re-reads the page on every fetch |
| Transparency.CycleTransparent | lib/core/cpu.cpp:5-115 | One cycle from a coherent cache gives the uncached machine's core and report; coherence and slot placement survive it unless its store hits a cached page |
| Transparency.PowerOnInStep | lib/core/memory.cpp:138-164 | The empty cache is coherent with every memory, so every run from power-on starts inside the invariant |
| Transparency.RewrittenCodeIsStale | lib/core/memory.cpp:138-166 | After storing a different word at a cached RAM pc the fetch still delivers the old word while the uncached fetch delivers the new one, and coherence is lost |
| Transparency.FenceIKeepsCache | lib/core/decode.cpp:272-279 | Executing a decoded `fence.i` only advances pc and counters: the cache is what the fetch left |
| Transparency.DecodesFenceI | lib/core/decode.cpp:272-279 | The word 0x0000100f is such an instruction on every machine |
| Transparency.RamFetch | lib/core/memory.cpp:133-167 | Uncached, an aligned fetch from RAM is the word stored at the pc |
| Fetch.TransparentIffCoherent | lib/core/memory.cpp:133-167 | The cached fetch agrees with the uncached one at every pc if and only if every valid entry equals the page in memory |
| Fetch.BoundedStaleness | lib/core/memory.cpp:133-172 | In every interleaving of fetches, writes and `fencei` from an empty cache, a fetched word is one that memory held at that address at some moment since the last `fencei` or the start |
| Fetch.AlwaysBoundedAge | lib/core/memory.cpp:138-172 | In every such interleaving each valid entry is, as a whole page, memory's content at one single moment since the last `fencei` |
| Transparency.RunStaleness | lib/core/cpu.cpp:5-20 | In every run from an empty cache, stores included, the instruction fetched in any cycle is what an uncached fetch at that pc would have delivered before some cycle up to that one |
| Fetch.FetchKeeps | lib/core/memory.cpp:138-164 | A fetch preserves coherence and slot placement, whether it hits, fills or fails |
| Fetch.FetchOutcome | lib/core/memory.cpp:133-160 | By address: which fetches are misaligned, throw, fault or deliver a word |
| Fetch.FetchEvictsIff | lib/core/memory.cpp:138-164 | A fetched page stays cached until a different page with the same number modulo 1024 is fetched |
| Fetch.FailedFetchEmpties | lib/core/memory.cpp:142-146 | A failed page read leaves its slot invalid and the others alone |
| Fetch.InstFetch.Fetch | lib/core/memory.cpp:133-167 | The in-place cache update and its outcome are the specified ones; memory's content is untouched even where a page is allocated |
| Fetch.InstFetch.Fencei | lib/core/memory.cpp:169-172 | Every entry becomes invalid and keeps its data |
| Traps.PreciseTraps | lib/core/cpu.cpp:117-174 | For every state and fetched word, a step that reports a trap leaves registers and all devices alone, sets mepc to the old pc, moves mie to mpie and clears it, sets mpp, jumps to a 4-aligned vector, and changes no CSR but the trap registers and the two counters |
| Traps.TrapValueMeaning | lib/core/cpu.cpp:138-161 | mtval is the instruction word for an illegal instruction, 0 for `ecall` and the timer, and for load and store traps the effective address, which is misaligned exactly if the trap says so |
| Traps.VectorAligned | lib/core/cpu.cpp:163-173 | Every trap vector, direct or vectored and wrapping included, is a multiple of 4 |
| Traps.TrapLanding | lib/core/cpu.cpp:130-173 | A trap lands at the base in mtvec, or 28 above it for the timer in vectored mode, with the pc in 0x341 and the literal cause number in 0x342 |
| Traps.ResetByAddress | lib/core/csr.cpp:77-109 | Which CSR addresses exist, and what each holds after reset |
| Traps.PutElsewhere | lib/core/csr.cpp:67-106 | A write at one CSR address is seen at no other |
| Traps.PendingByAddress | lib/core/cpu.cpp:41-52 | The interrupt condition in terms of 0x300, 0x344 and 0x304 |
| Traps.CountersByAddress | lib/core/csr.cpp:112-116 | 0xB80 and 0xB00, and 0xB82 and 0xB02, are halves of a number that every step advances |
| Traps.TrapStatusBits | lib/core/cpu.cpp:124-128 | The three field updates of trap entry set mpie to the old mie, clear mie, set mpp to machine mode and do not disturb one another |
| Traps.MretBits | lib/core/cpu.cpp:103-108 | `mret` restores mie from mpie, clears mpie and keeps mpp |
| Traps.TrapAndReturn | lib/core/cpu.cpp:41-52 | A trap, then any handler run without synchronous exceptions, `mret` or writes to mstatus or mepc, then `mret`: no interrupt is taken on the way, and the machine is back at the interrupted pc with mie as before |
| Traps.EcallAndReturn | lib/core/cpu.cpp:33-39 | On every machine with a legal mstatus `ecall` traps, and a handler that is a single `mret` returns to it |
| Traps.HandlerRunKeeps | lib/core/cpu.cpp:117-132 | Over a handler run of any length mepc and mstatus stay what trap entry made them |
| Traps.HandlerNeverInterrupted | lib/core/cpu.cpp:41-52 | No cycle of such a run reports a trap |
| Traps.StepThrowsIff | lib/core/memory.cpp:52-110 | A step throws if and only if the fetch does: no decoded load or store reaches a throw |
| Traps.FetchThrowsIff | lib/core/memory.cpp:148-159 | The fetch throws exactly on aligned pcs in the 4 KiB pages of the UART and the clock |
| Traps.PendingIsMaskedTest | lib/core/cpu.cpp:41-52 | The interrupt condition is bit 7 of `mip & mie` with mie set, as the source computes it |
| Traps.InterruptTakenIff | lib/core/cpu.cpp:33-52 | The timer interrupt is taken if and only if it is pending and the fetched word decodes and is not `ecall` |
| LoopDetector.DetectorExact | main/src/emulator.cpp:86-93 | For every firing: the machine stays at the pc without a trap for ever if and only if the instruction is not a `jalr` that overwrites its own base and whose offset is not -4, and the timer interrupt is blocked or its compare register is 2^64 - 1 |
| LoopDetector.DetectorSoundIff | main/src/emulator.cpp:86-93 | With the timer blocked, a firing means that the pc never changes again if and only if the instruction is not such a `jalr` |
| LoopDetector.MovesOnNext | main/src/emulator.cpp:86-93 | After a firing on such a `jalr` the very next cycle takes a pending interrupt or leaves the pc |
| LoopDetector.LoopChangesNothing | main/src/emulator.cpp:86-93 | In the sound case the whole machine after any number of further cycles: timer and both counters are that much later modulo 2^64, mip may have gained the timer bit, everything else is unchanged, and nothing traps |
| LoopDetector.WaitEndsIff | main/src/emulator.cpp:86-93 | With the timer enabled, a loop that fired takes the timer interrupt after finitely many cycles if and only if the compare register is below 2^64 - 1 |
| LoopDetector.JumpOnceFires | main/src/emulator.cpp:86-93 | `jalr x1, 0(x1)` with x1 at the pc makes the detector fire, and executed again it leaves for pc + 4 |
| LoopDetector.SelfJumpFires | main/src/emulator.cpp:86-93 | `jal x0, 0` makes it fire on every machine without a pending interrupt, and belongs to the sound case |
| LoopDetector.DecodeAgain | lib/core/decode.cpp:48-81 | Decoding a branch or jump again after its own writeback gives the same result, except that a self-overwriting `jalr` sees the new base |
| Debugger.AlwaysSound | main/src/platform.cpp:26-46 | Every run of CPU cycles, debugger reads and writes of memory and registers, of any address and length, and restarts keeps: ROM is the padded flash image, x0 is 0, mstatus has only mie, mpie and mpp, and CSRs 0xF11-0xF15 keep their reset values |
| Debugger.ActSound | lib/gdb-stub/accessor.cpp:48-82 | Each single one of these actions keeps that invariant |
| Debugger.PowerOnSound | main/src/platform.cpp:26-46 | The platform as built satisfies it |
| Debugger.ReadChangesNothing | lib/gdb-stub/accessor.cpp:22-46 | A debugger register read leaves the machine unchanged, although it goes through the masked CSR write, and returns the CSR's value |
| Debugger.WriteReadBack | lib/gdb-stub/accessor.cpp:48-82 | Every accepted register write is read back as written, except x0, mstatus (its legal bits) and mstatush (0) |
| Debugger.RegisterNumbers | lib/gdb-stub/accessor.cpp:22-46 | 0 to 31 are the general registers, 32 the pc, 128 + a the CSR at a |
| Debugger.WriteAccepted | lib/gdb-stub/accessor.cpp:48-82 | Exactly which register writes are accepted; a refused one changes nothing, an accepted one no other register |
| Debugger.WriteCpuRegister | lib/gdb-stub/accessor.cpp:48-82 | The write changes the one register, pc or CSR it names and reports success as specified |
| Debugger.ReadCpuRegister | lib/gdb-stub/accessor.cpp:22-46 | The read returns the named register, pc or CSR, or nothing |
| Emulator.Emulator.TickOneCycle | main/src/emulator.cpp:35-43 | CPU step, then clock tick, then the cycle count: the whole machine moves by one specified cycle |
| Emulator.Emulator.Run | main/src/emulator.cpp:45-96 | The loop executes exactly the cycles before and including the first that throws, is captured or looks like a loop, reports which of the three it was in the source's order, and counts the completed cycles |
| Emulator.ExceptionOnlyIsInverted | main/src/emulator.cpp:56-72 | The mode `Exception_only` catches what it is documented to catch (exceptions except `ecall`) exactly on cycles without a trap and on `ecall` |
| Emulator.CaptureModes | main/src/emulator.cpp:51-84 | `No_capture` never ends a run with a trap, `All` ends it at the first one |
| Cpu.CpuModule.Execute | lib/core/cpu.cpp:5-115 | Fetch, decode, interrupt test, ALU, CSR access, memory access and writeback in place produce the specified state and report, early returns included |
| Cpu.CpuModule.WriteBack | lib/core/cpu.cpp:101-112 | Register, pc and mstatus after `mret`, a taken branch, or neither |
| Cpu.CpuModule.HandleTrap | lib/core/cpu.cpp:117-174 | Without a trap nothing changes; with one the trap CSRs and the pc are the specified ones |
| Cpu.CpuModule.Step | lib/core/cpu.cpp:176-182 | Execute, trap entry and counters compose into the specified step of the cached machine |
| Retire.RegisterRetires | lib/core/cpu.cpp:54-112 | Every register-register word, the M extension and the conditional zeros included: `rd` receives the value the ISA prescribes for its fields (high products zero-extended), no other register changes, the pc advances by 4; or the word is illegal |
| Retire.ImmediateRetires | lib/core/cpu.cpp:54-112 | The same for every word with an immediate, shifts by bit 10 of the offset |
| Retire.UpperRetires | lib/core/decode.cpp:22-46 | `lui` leaves the shifted immediate, `auipc` pc plus it |
| Retire.JumpRetires | lib/core/decode.cpp:48-62 | `jal` goes to pc + offset and leaves pc + 4 |
| Retire.JumpRegisterRetires | lib/core/decode.cpp:64-81 | `jalr` goes to rs1 + offset, bit 0 included, and leaves pc + 4 |
| Retire.BranchRetires | lib/core/decode.cpp:242-270 | A branch goes to pc + offset exactly if the comparison of its `funct3` holds, otherwise to pc + 4, and writes no register |
| Retire.LoadRetires | lib/core/cpu.cpp:66-101 | A load traps as misaligned or as an access fault exactly on the stated addresses; otherwise only `rd` changes, and from RAM and ROM it receives the little-endian number there, extended as its `funct3` says |
| Retire.StoreRetires | lib/core/cpu.cpp:66-112 | A store traps exactly on the stated addresses; otherwise no register changes, and in RAM exactly the named bytes do |
| Retire.CsrRetires | lib/core/cpu.cpp:57-64 | A CSR instruction is illegal exactly if it asks to write a read-only register or reaches none; otherwise `rd` receives the old value (of mstatus the new one) |
| Retire.MretRetires | lib/core/cpu.cpp:103-108 | `mret` goes to the pc in 0x341, restores mie and changes nothing else |
| Retire.EcallAndFence | lib/core/cpu.cpp:33-39 | `ecall` always traps as such; `fence.i` only advances |
| Retire.HandlerReads | lib/core/cpu.cpp:124-161 | Right after trap entry `csrr` of 0x341, 0x342 and 0x343 delivers the trapped pc, the cause number and the trap value |
| LoadStore.StoreExact | lib/core/memory.cpp:72-107 | An aligned store to RAM changes exactly the bytes it names, to the little-endian bytes of its value, and no other device |
| LoadStore.LoadExact | lib/core/memory.cpp:40-67 | An aligned load from RAM returns the bytes at its address joined little-endian and sign- or zero-extended, and changes nothing |
| LoadStore.BytesLastStored | lib/core/memory.cpp:25-108 | After any sequence of stores every RAM byte is the one last stored there, or the initial one |
| LoadStore.DebuggerSeesRam | lib/gdb-stub/accessor.cpp:5-20 | The debugger's byte accessor reads the same RAM bytes, and its write is a byte store |
| LoadStore.DebuggerWritesOneByte | main/src/emulator-debug.cpp:128-144 | For every address and length: GDB's memory write succeeds if and only if it is empty or a single byte at the first byte of a RAM word or of a writable device register |
| LoadStore.DebuggerReadsRam | main/src/emulator-debug.cpp:106-126 | GDB's memory read within RAM delivers exactly the RAM bytes if it starts at a word, and nothing otherwise |
| LoadStore.DebugWriteBytes | main/src/emulator-debug.cpp:128-144 | The loop over the bytes, through the paged memory, stops at the first error with the specified state |
| LoadStore.DebugReadBytes | main/src/emulator-debug.cpp:106-126 | The loop over words, through the paged memory, collects the specified bytes up to the first error |
| LoadStore.DecodedNeverThrows | lib/core/memory.cpp:52-110 | With a width of its own kind, or none, an access never reaches a throw |
| LoadStore.TrapChangesNothing | lib/core/memory.cpp:40-106 | An access that traps leaves every device as it was |
| LoadStore.PerformAccess | lib/core/memory.cpp:25-111 | The access through the paged memory is the one on the flat memory |
| LoadStore.DebugReadByte | lib/gdb-stub/accessor.cpp:5-11 | The debugger's byte read through the paged memory is the one on the flat memory |
| LoadStore.DebugWriteByte | lib/gdb-stub/accessor.cpp:13-20 | The debugger's byte write through the paged memory is the one on the flat memory |
| BlockMemory.PagedMemory.constructor | lib/device/block-memory.cpp:9-15 | Unallocated pages stand for the flat array that the fill policy initialises |
| BlockMemory.PagedMemory.TouchPage | lib/device/block-memory.cpp:48-58 | Allocating a page never changes the flat content |
| BlockMemory.PagedMemory.FillPage | lib/device/block-memory.cpp:17-46 | A value-initialised page becomes the fill policy's content of its place |
| BlockMemory.PagedMemory.Read | lib/device/block-memory.cpp:77-96 | Result or error of a flat array, which is unchanged, whichever pages are allocated |
| BlockMemory.PagedMemory.ReadPage | lib/device/block-memory.cpp:98-116 | The same for 1024 words at once |
| BlockMemory.PagedMemory.Write | lib/device/block-memory.cpp:118-158 | The flat array changes in the masked bytes of one word or the error is the first that applies; a locked memory refuses |
| BlockMemory.PagedMemory.FillData | lib/device/block-memory.cpp:60-75 | The chunk loop overlays the bytes at address 0 of the flat array, or refuses data longer than the memory |
| BlockMemory.FilledBytes | lib/device/block-memory.cpp:60-75 | Byte by byte: data goes to the start of the memory in order, what lies behind it stays |
| BlockMemory.FreshByte | lib/device/block-memory.cpp:17-46 | What every byte holds that nothing was written to, by fill policy |
| BlockMemory.ByteValue | lib/device/block-memory.cpp:150-155 | A word is the little-endian number of its bytes |
| BlockMemory.PagedMemory.ResetContent | lib/device/block-memory.cpp:166-169 | The flat array is filled anew as after construction, a random one with another content |
| BlockMemory.PageIsWordReads | lib/device/block-memory.cpp:98-116 | A page read delivers what 1024 single reads deliver |
| BlockMemory.PageReadInOneStoragePage | lib/device/block-memory.cpp:106-113 | A page read never crosses a storage page |
| BlockMemory.MergedByte | lib/device/block-memory.cpp:146-157 | Under a byte mask each byte of the word is the new one where selected and the old one elsewhere |
| Bus.PlatformMemory.Read | main/src/platform.cpp:4-24 | A read reaches the device whose range contains the address, at its offset, and only that device changes |
| Bus.PlatformMemory.ReadPage | lib/device/interconnect.cpp:17-25 | Page reads reach ROM and RAM; the peripherals refuse them; nothing changes |
| Bus.PlatformMemory.Write | lib/device/interconnect.cpp:27-35 | A write reaches the device whose range contains the address, and only that device changes |
| Bus.BuildMemory | main/src/platform.cpp:26-46 | An image that fits yields locked ROM with the image padded with zeros, RAM filled by policy and idle devices; the source throws exactly if the image does not fit |
| Bus.RomImageByte | main/src/platform.cpp:30-39 | Byte i of the ROM is byte i of the image, or 0 behind it |
| Bus.RomImageWord | main/src/platform.cpp:30-39 | Word k of the ROM is the little-endian number of four image bytes |
| Transparency.RomFetch | lib/core/memory.cpp:133-167 | An uncached fetch from ROM delivers that number |
| Bus.TimerThroughBus | lib/device/interconnect.cpp:8-35 | Through the bus: high and low reads at 0x11004 and 0x11000 give the timer, two stores at 0x11008 and 0x1100c set the compare value |
| Bus.UartThroughBus | lib/device/peripheral/uart.cpp:7-56 | Through the bus: the configuration register keeps what is stored, two reads of the receive register give consecutive inputs, transmitting changes no state |
| Clock.SplitReadIsAtomic | lib/device/peripheral/clock.cpp:53-97 | High half, then any ticks and accesses to the other register, then low half: together exactly the 64-bit value at the high read, for timer and compare register alike |
| Clock.LiveReadTears | lib/device/peripheral/clock.cpp:53-97 | Without the latch a carry between the halves would give 0 for 0xffffffff |
| Clock.FullWrites | lib/device/peripheral/clock.cpp:9-51 | Writing both halves in either order sets the 64-bit value of timer or compare register and leaves the other alone |
| Clock.WriteDropsLatch | lib/device/peripheral/clock.cpp:9-51 | Every write drops the register's latched half |
| Clock.ClockDevice.Read | lib/device/peripheral/clock.cpp:53-97 | Values, errors and latches of a read |
| Clock.ClockDevice.Write | lib/device/peripheral/clock.cpp:9-51 | Values, errors and latches of a masked write |
| Clock.ClockDevice.Tick | lib/device/peripheral/clock.cpp:99-103 | The timer advances modulo 2^64, and mip bit 7 is raised, never lowered, once it exceeds the compare value |
| Csr.MaskedWriteBit | lib/core/csr.cpp:56-62 | Each bit is the new one where the mask is set and the old one elsewhere |
| Csr.AccessBits | lib/core/csr.cpp:33-110 | On every writable register an access overwrites, sets, clears or keeps each bit as its mode says, of mstatus only mie, mpie and mpp, and mstatush stays 0 |
| Csr.LegalisedIsMask | lib/core/csr.cpp:5-31 | Clearing the listed fields of mstatus is masking it with the bits of mie, mpie and mpp |
| Csr.OverwriteStores | lib/core/csr.cpp:33-110 | Overwriting a writable register, the two halves of the counters included, stores the value, its legal part in mstatus and 0 in mstatush |
| Csr.StatusAnswerIff | lib/core/csr.cpp:95-100 | Overwriting mstatus returns the old value if and only if the legal part of the new one equals it |
| Csr.WriteFromX0Iff | lib/core/csr.cpp:33-110 | Not writing leaves the same CSRs as writing 0 if and only if the register is 0 |
| Csr.AccessLegal | lib/core/csr.cpp:33-110 | Every access keeps mstatus legal and the identification registers fixed |
| Csr.AccessElsewhere | lib/core/csr.cpp:51-106 | mstatus and mepc change only through a write addressed to them |
| Csr.CsrModule.Access | lib/core/csr.cpp:33-110 | Value, error and every register after an access |
| Csr.CsrModule.EnterTrap | lib/core/cpu.cpp:124-161 | The CSRs after trap entry; all others are unchanged |
| Csr.CsrModule.Tick | lib/core/csr.cpp:112-116 | Both 64-bit counters advance, wrapping around |
| Decode.DecodedExclusive | lib/core/decode.cpp:83-392 | A decoded instruction never combines a memory access with a CSR access, nor `mret`, `ecall` or a branch with either, uses a load width for loads and a store width for stores, and decoding fails only as an illegal instruction |
| Isa.RegisterDecoded | lib/core/decode.cpp:175-240 | For every register-register word the selected operation computes the value the ISA prescribes for funct3 and funct7, and there is none exactly if the ISA table has none |
| Isa.ImmediateDecoded | lib/core/decode.cpp:148-173 | The same for every word with an immediate |
| Isa.BranchDecoded | lib/core/decode.cpp:242-270 | The selected comparison is the one of section 2.5.2 for every funct3 |
| Isa.LoadDecoded | lib/core/decode.cpp:83-110 | Base register, offset and funct3 of a load |
| Isa.StoreDecoded | lib/core/decode.cpp:112-146 | Base register, offset, value and funct3 of a store |
| Isa.CsrDecoded | lib/core/decode.cpp:305-346 | Address, mode and operand of a CSR instruction |
| Isa.IllegalIff | lib/core/decode.cpp:350-392 | Exactly which words decode |
| Isa.MultiplyComputed | lib/core/alu.cpp:40-94 | The M extension by funct3, written with integer division |
| Isa.BaseComputed | lib/core/alu.cpp:97-123 | The integer operations by funct3, the bitwise ones bit by bit |
| Decode.WriteFromX0 | lib/core/decode.cpp:320-343 | `csrrw` from `x0` decodes as an access without a write |
| Decode.CsrImmediateIff | lib/core/decode.cpp:320-343 | A CSR immediate is the zero-extended field if and only if the field is below 16 |
| Decode.JalrTargetIff | lib/core/decode.cpp:64-81 | The `jalr` target is the one with bit 0 cleared if and only if the sum is even |
| Encoding.FieldsOf | lib/include/core/inst.hpp:7-21 | Every field of an assembled word is taken out again |
| Encoding.ITypeImmediate | lib/include/core/inst.hpp:23-36 | For every offset in range the decoded I immediate is the offset that was assembled, modulo 2^32 |
| Encoding.STypeImmediate | lib/include/core/inst.hpp:38-50 | The same round trip for the split S immediate |
| Encoding.BTypeImmediate | lib/include/core/inst.hpp:52-69 | The same round trip for the scattered branch offset |
| Encoding.JTypeImmediate | lib/include/core/inst.hpp:82-96 | The same round trip for the scattered jump offset |
| Alu.DivRemSigned | lib/core/alu.cpp:60-86 | Quotient times divisor plus remainder is the dividend modulo 2^32, for all words |
| Alu.RemSignedBounds | lib/core/alu.cpp:78-86 | A remainder by a non-zero divisor is smaller in magnitude and non-zero only with the dividend's sign |
| Alu.DivRemUnsigned | lib/core/alu.cpp:70-94 | The same laws unsigned, exactly where the divisor is not zero |
| Alu.MulUnsignedExact | lib/core/alu.cpp:40-53 | `mulhu` and `mul` together are the exact 64-bit product |
| Alu.MulHighAgrees | lib/core/alu.cpp:45-48 | `mulh` is the high word of the signed product if and only if both operands are non-negative, one is 0, or both are the most negative number |
| Alu.MulHighSignedUnsignedAgrees | lib/core/alu.cpp:55-58 | `mulhsu` is as the ISA says if and only if its first operand is non-negative or the second is 0 |
| PacketRoundTrip.EncodeRoundTrip | lib/gdb-stub/packet.cpp:175-237 | For every string, a receiver that checks framing and checksum, expands run lengths and removes escapes gets the string without its NULs back if and only if no escape character is directly repeated in that string |
| PacketRoundTrip.ReadsBackIff | lib/gdb-stub/packet.cpp:175-221 | The same per run: the body has no raw delimiter and decodes to its characters if and only if every run of an escape character has length 1 |
| PacketRoundTrip.SingleEscapesChars | lib/gdb-stub/packet.cpp:199-221 | That condition on runs is the condition on the string |
| PacketRoundTrip.RepeatedStarIsLost | lib/gdb-stub/packet.cpp:179-183 | A concrete string, `**`, that does not survive |
| PacketRoundTrip.StripNulIdentity | lib/gdb-stub/packet.cpp:201 | A string without NULs loses nothing |
| PacketText.TokensOfString | lib/gdb-stub/packet.cpp:199-221 | The encoder's runs are maximal up to 98 characters and spell the string without NULs |
| PacketText.ChecksumIsSum | lib/gdb-stub/packet.cpp:12-19 | The checksum is the sum of all bytes modulo 256 |
| PacketText.PacketLayout | lib/gdb-stub/packet.cpp:223-231 | A packet is `$`, the body, `#` and the sum as two lower-case hexadecimal digits of a literal table, the high one first |
| PacketText.FlipMeaning | lib/gdb-stub/packet.cpp:209-213 | An escaped character is exclusive-ored with 0x20 |
| PacketText.RunIsToken | lib/gdb-stub/packet.cpp:203-220 | Up to 98 equal characters are one run |
| PacketText.Samples | lib/gdb-stub/packet.cpp:175-237 | Complete packets for two letters and four equal ones, and the text of 98 and 99 equal letters and of a brace |
| PacketEncoding.PacketEncoder.Push | lib/gdb-stub/packet.cpp:199-221 | After each character the stream is the text of all finished runs and the first character of the current one |
| PacketEncoding.PacketEncoder.PushRepeat | lib/gdb-stub/packet.cpp:175-197 | Writing the pending repeats completes the text of all runs |
| PacketEncoding.Encode | lib/gdb-stub/packet.cpp:223-237 | The packet is the framed text of the string's runs with its checksum |
| PacketDecoding.SelfSynchronising | lib/gdb-stub/packet.cpp:68-155 | From every reachable decoder state and for every chunking, a string escaped and framed as GDB does is the last result if it fits the buffer, preceded by one error if a frame was open, and leads to an overflow error if it does not; the decoder is idle with an empty buffer in any case |
| PacketDecoding.FramedPacketDelivered | lib/gdb-stub/packet.cpp:45-155 | The same for every body without raw delimiters, legal or not, of any length |
| PacketDecoding.FrameVerdict | lib/gdb-stub/packet.cpp:45-66 | For every body and every two characters after `#`: delivered if and only if they are hexadecimal digits of the sum and the escapes are legal, a bad checksum if and only if they are digits of another number, a bad packet otherwise |
| PacketDecoding.OtherBytes | lib/gdb-stub/packet.cpp:85-150 | Bytes between packets and where a checksum is due: what is delivered, dropped, spoiled or opened |
| PacketDecoding.DecodesOwnEncoderIff | lib/gdb-stub/packet.cpp:45-237 | From every reachable state and for every chunking, the encoder's packet is delivered as the string that was encoded if and only if its body fits the buffer and all its runs are at most 3 long, and 1 for the three characters `$`, `#`, `}` |
| PacketDecoding.FrameConservation | lib/gdb-stub/packet.cpp:68-155 | Results queued plus a still open frame are the `$` bytes received plus the acknowledgements outside a body (plus a frame open before) |
| PacketDecoding.PopsInOrder | lib/gdb-stub/packet.cpp:70-173 | In every interleaving of pushes and pops, what was popped followed by what is queued is the sequence of results of all bytes received |
| PacketDecoding.ChunkingIrrelevant | lib/gdb-stub/packet.cpp:68-155 | How a stream is cut into pushes changes neither state nor results |
| PacketDecoding.FeedReachable | lib/gdb-stub/packet.cpp:68-155 | The buffer is empty while waiting for `$` and never exceeds its limit |
| PacketDecoding.UnescapeEscape | lib/gdb-stub/packet.cpp:21-42 | Removing escapes undoes escaping, and an escaped body has no raw delimiter |
| PacketDecoding.RemoveEscape | lib/gdb-stub/packet.cpp:21-42 | The index loop computes the recursive definition, including both malformed cases |
| PacketDecoding.PacketDecoder.Push | lib/gdb-stub/packet.cpp:68-155 | The object's state and queue after a chunk are the specified ones; the availability flag equals queue non-emptiness |
| PacketDecoding.PacketDecoder.PopPacket | lib/gdb-stub/packet.cpp:162-173 | The oldest result is removed and returned, or the queue was empty and stays so |
| PacketDecoding.PacketDecoder.NewPacketAvailable | lib/gdb-stub/packet.cpp:157-160 | True if and only if a result is queued |
| ExpressionTheorems.PostfixCorrect | lib/gdb-stub/expression.cpp:42-381 | For every tree, conditionals compiled to `if_goto` and `goto` included, whose evaluated operators meet harmless operands and whose jump targets fit 16 bits: the bytecode and `end` return the tree's value by section F.2 with no second element, or the error of the first failing access |
| ExpressionTheorems.ShortReaches | lib/gdb-stub/expression.cpp:294-322 | Code of less than 2^16 bytes reaches all its jump targets |
| ExpressionTheorems.SymmetricIsHarmless | lib/gdb-stub/expression.cpp:51-168 | That covers every tree over constants, registers, references, negations, extensions, conditionals, `add`, `mul`, the bitwise operators and `equal` |
| ExpressionTheorems.NodeConformsIff | lib/gdb-stub/expression.cpp:51-182 | Above two harmless subtrees an operator has its standard value if and only if its operands are harmless |
| ExpressionTheorems.PostfixRuns | lib/gdb-stub/expression.cpp:42-381 | For trees over all operators as written and conditionals, anywhere in a program and on any stack, the code pushes the tree's value or stops with its error, and continues behind itself |
| ExpressionTheorems.HarmlessConforms | lib/gdb-stub/expression.cpp:51-244 | On such trees the interpreter's operators compute the value by section F.2 |
| StandardOperators.ShiftedExtendMeaning | lib/gdb-stub/expression.cpp:183-192 | Shifting up and back is sign extension of the low n bits, for n from 1 to 32 |
| StandardOperators.MaskedExtendMeaning | lib/gdb-stub/expression.cpp:193-202 | Masking is the value modulo 2^n, for n from 0 to 31 |
| StandardOperators.ConformsIff | lib/gdb-stub/expression.cpp:51-182 | For each of the sixteen operators, the exact operands on which it agrees with section F.2: always for `add`, `mul`, the bitwise ones and `equal`; difference a multiple of 2^31 for `sub`; equal operands for `less`; divisor 0 or equal operands (equal magnitudes if signed) for division and remainder; for the shifts the stated tests on the two operands |
| StandardOperators.UnaryConforms | lib/gdb-stub/expression.cpp:125-244 | Negations (bit by bit), extensions and little-endian references have their standard values and errors |
| StandardOperators.LeftShift | lib/gdb-stub/expression.cpp:104-110 | `lsh` agrees exactly if, for widths below 32, the value looks like the width in the bits that survive or one of four other pairs does, and beyond if the masked shift leaves nothing |
| StandardOperators.RightShiftUnsigned | lib/gdb-stub/expression.cpp:118-124 | `rsh_unsigned` agrees exactly if both shifts leave 0, or the value's low five bits are at most 4 and it lies in the block of 2^width numbers that the width divided by 1, 2, 4, 8 or 16 names |
| StandardOperators.RightShiftSigned | lib/gdb-stub/expression.cpp:111-117 | `rsh_signed` agrees exactly on the same operands if the value is not negative, and otherwise exactly if the width is, as a signed number, no less than -2^(low five bits of the value) and at least 32 as an unsigned one |
| StandardOperators.SignedDivision | lib/gdb-stub/expression.cpp:72-103 | Signed division and remainder agree if and only if the divisor is 0 or the magnitudes are equal, the undefined pairs included |
| StandardOperators.ReversedUnsigned | lib/gdb-stub/expression.cpp:58-182 | `10 3` with `sub`, unsigned division, remainder and comparison: the wrong and the right result |
| StandardOperators.ReversedSigned | lib/gdb-stub/expression.cpp:72-175 | The same for the signed ones |
| StandardOperators.ReversedShifts | lib/gdb-stub/expression.cpp:104-124 | The same for the shifts |
| ExpressionTheorems.StepFrame | lib/gdb-stub/expression.cpp:13-34 | An instruction that does not underflow acts alike on every deeper stack |
| ExpressionTheorems.RunFrame | lib/gdb-stub/expression.cpp:42-381 | A run that does not underflow takes the same pcs, pushes the same values and ends with the same top on every deeper stack |
| ExpressionTheorems.OnlyJumpsGoBack | lib/gdb-stub/expression.cpp:294-322 | Only the two jumps can fail to advance the pc |
| ExpressionTheorems.StackEffects | lib/gdb-stub/expression.cpp:245-293 | By opcode, on every stack: what `dup`, `pop`, `swap` and `rot` leave, as section F.2 says |
| ExpressionTheorems.PickEffect | lib/gdb-stub/expression.cpp:271-281 | `pick n` copies the element n below the top |
| ExpressionTheorems.EndEffect | lib/gdb-stub/expression.cpp:373-381 | `end` delivers the top and the element below it |
| ExpressionTheorems.StepErrors | lib/gdb-stub/expression.cpp:13-50 | For every byte and stack, exactly when a step reports an unsupported byte, missing bytes or an underflow |
| ExpressionTheorems.ForwardRunsHalt | lib/gdb-stub/expression.cpp:294-381 | A run that takes no backward jump ends within one iteration more than the code has bytes |
| ExpressionTheorems.GotoSelfRunsForever | lib/gdb-stub/expression.cpp:313-322 | `goto 0` is still running after any number of iterations |
| Expression.RunSplit | lib/gdb-stub/expression.cpp:42-381 | A run of m + n iterations is a run of n from where a run of m stands |
| ExpressionMachine.Iterate | lib/gdb-stub/expression.cpp:42-381 | Popping and pushing element by element, with the bounds tests in the source's order, has the outcome of the specified step |
| ExpressionMachine.Execute | lib/gdb-stub/expression.cpp:7-388 | The loop has the outcome of that many specified iterations |
| Watchpoints.BeforeIsGap | lib/include/gdb-stub/addr-range.hpp:21-32 | For all ranges, `<` compares the intervals between start and end, which for a range that wraps around is the part it does not contain |
| Watchpoints.BeforeIsOrder | lib/include/gdb-stub/addr-range.hpp:21-32 | `<` is irreflexive, asymmetric and transitive on all ranges, wrapping ones included |
| Watchpoints.OverlapsMeaning | lib/include/gdb-stub/addr-range.hpp:11-15 | The overlap test means a common byte, addresses wrapping around |
| Watchpoints.TouchesIff | lib/include/gdb-stub/addr-range.hpp:21-32 | For all non-empty ranges, what makes them equivalent keys: overlap or adjacency if neither reaches 2^32, and reaching into the gap of the one that does |
| Watchpoints.WrappingRangeSwallows | lib/include/gdb-stub/addr-range.hpp:23-27 | A range ending at 2^32 is equivalent to every range below it, so the order breaks |
| Watchpoints.Partition | lib/include/gdb-stub/addr-range.hpp:21-32 | Around every query the stored keys before it are a prefix and those after it a suffix |
| Watchpoints.FindIsFirstTouching | main/src/emulator-debug.cpp:50-54 | In a search tree of any shape the lookup finds the first stored range that touches the query |
| Watchpoints.OverlapIsFound | main/src/emulator-debug.cpp:50-54 | An access that overlaps a stored range finds an entry in every tree, if neither reaches 2^32 |
| Watchpoints.TopAccess | main/src/emulator-debug.cpp:50-54 | In every map, an access that ends at 2^32 finds the first entry of all if that starts low enough, and otherwise nothing although it overlaps every entry |
| Watchpoints.UntouchedOverlap | main/src/emulator-debug.cpp:50-54 | Two ranges that are not equivalent keys overlap if and only if one of them reaches 2^32 |
| Watchpoints.ReportRightIff | main/src/emulator-debug.cpp:43-62 | For every well-ordered map and every non-empty access, wherever they end, exactly when the report agrees with "some watched byte is accessed", by the first touching entry, those behind it and those it was preferred to |
| Watchpoints.AloneIsRight | main/src/emulator-debug.cpp:43-62 | For all maps and accesses: if the entries that touch the access are those that overlap it, and at most one, the report is right |
| Watchpoints.AlwaysOrdered | main/src/emulator-debug.cpp:230-274 | Every sequence of add and remove commands, whatever their ranges, keeps the stored ranges strictly ordered |
| Watchpoints.ObeyMeaning | main/src/emulator-debug.cpp:230-274 | What the map holds after each command |
| Watchpoints.InsertIsEmplaced | main/src/emulator-debug.cpp:246-256 | In a well-ordered tree of any shape, insertion by descent stores the entry where it belongs in the sequence, or nowhere |
| Watchpoints.EmplacedMeaning | main/src/emulator-debug.cpp:246-256 | A new watchpoint is stored exactly if no stored range touches it; otherwise the map is unchanged |
| Watchpoints.ErasedMeaning | main/src/emulator-debug.cpp:261-274 | Removal takes away exactly the first range that touches the given one |
| Watchpoints.WatchpointMap.HandleAdd | main/src/emulator-debug.cpp:230-259 | Map and reply after an add command, also when nothing is stored |
| Watchpoints.WatchpointMap.HandleRemove | main/src/emulator-debug.cpp:261-274 | Map and reply after a remove command |
| Watchpoints.WatchpointMap.Check | main/src/emulator-debug.cpp:43-62 | Nothing without a memory access, a throw without a width, and otherwise a hit if and only if the first range that touches the access watches its kind |
| WatchCheck.CheckThrowsIff | lib/core/memory.cpp:113-131 | After a cycle the check throws if and only if the instruction is a load or store with a funct3 that names no width, also where the CPU only trapped |
| WatchCheck.ResultShows | main/src/emulator-debug.cpp:43-54 | The check sees the decoded instruction and its effective address, unless the timer interrupt came first |
| WatchCheck.CheckRightIff | main/src/emulator-debug.cpp:43-62 | For every map, state and fetch outcome: the check's answer after a cycle agrees with "a completed access touched a watched byte" if and only if the cycle did not trap and accessed nothing or meets the condition of `ReportRightIff`, or trapped and the check does not hit |
| WatchCheck.TrappedLoadIsReported | main/src/emulator-debug.cpp:43-62 | `lw x1, 0(x0)` faults and hits a watchpoint at 0 |
| WatchCheck.CompletedAccessFits | main/src/emulator-debug.cpp:50-61 | After a completed access the check looks up a range within the address space, and hits exactly if that is reported |
| Watchpoints.NeighbourIsReported | main/src/emulator-debug.cpp:50-61 | In every map below 2^32, each watchpoint reports the unwatched byte behind it |
| Watchpoints.WatchedStoreIsMissed | main/src/emulator-debug.cpp:50-61 | A concrete store to a watched byte that is not reported |
| Watchpoints.LastWordGoesWrong | main/src/emulator-debug.cpp:50-61 | The word access to 0xfffffffc is reported for a watchpoint at 0x100 and missed by one at 0xfffffffe |
| Watchpoints.TopWatchpointReportsAll | main/src/emulator-debug.cpp:50-61 | A watchpoint that ends at 2^32 reports every access below it |

## Left out

- Execute: takes a bound on the iterations, because the source's loop need not end; a run still going at the bound is reported as running. Shift widths and divisions that C++ leaves undefined stop with the outcome `Undefined`, and the accessor callbacks are functions without effects.
- Run: takes a bound on the cycles for the same reason, and does not print.
- DetectorSoundIff: firings with the timer enabled are the subject of `DetectorExact`.
- WaitEndsIff: the self-overwriting `jalr` is the subject of `MovesOnNext` and `DetectorExact`.
- ResultShows: an address that the source leaves unset because of an interrupt is 0 here.
- FillPage: the random policy is an arbitrary function of the position and the number of resets.
- Rebalancing of the watchpoint map's tree: lookup and insertion are proved for trees of any shape, removal on the ordered sequence.
- TrapValueMeaning: does not cover fetch faults, where the source copies a field it has not set; the model's value there is 0.
- ReadPage: returns the page instead of filling a caller's span, and the fetch cache holds pages as values.
- The UART's input stream, its random status bit and its output: what it receives is a parameter, what it sends is dropped.
- Wrap-around of 64-bit bus addresses: the CPU and the debugger only form 32-bit ones.
- The decoder's mutex, atomics and internal error: one thread, and `stoi` cannot fail on two hexadecimal digits.
- Sockets, timeouts, threads, command parsing, breakpoints, register descriptions, option parsing and file loading: input and output without a hard property.
- The waiting state of `wfi` and the memory-usage query: nothing reads them here.
