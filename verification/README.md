# Apex-Emu: a verified model

Apex-Emu runs x86-64 guests on many virtual CPUs at once. Guest bytes are decoded,
lowered one for one into IR records, flattened into an indexed stream, and run by an
IR interpreter, on the host or on a device, each vCPU in its own copy of guest RAM.
This project models that path in Dafny and proves what it promises.

## How the model is built

| files | part |
|---|---|
| `Words`, `Memory`, `StatusFlags`, `Arithmetic` | machine words, bounded little-endian memory, flags and condition codes, and what the arithmetic records compute, bit by bit |
| `Machine`, `Ir`, `IrInterpreter` | effects of instructions, the pure IR step machine, and the interpreter loop that refines it |
| `Vcpu`, `Schedule`, `Device`, `Backends` | system calls, interleavings of vCPUs, the device, and the two backends |
| `X86`, `DecoderSpec`, `Decoder`, `DecoderFacts` | decoded instructions, a table of encodings, the branching decoder proved against it, and its length bound |
| `ModRm`, `OpcodeMap`, `UnknownOpcodes` | the Intel SDM's operand encoding and opcode map as an assembler, which the decoder inverts, and what it refuses |
| `Translator`, `EncodingLimits`, `OperandForms`, `Flatten`, `Blocks` | lowering, where it keeps an operand's meaning, flattening, block-wise decoding |
| `Reference`, `Manual`, `Simulation`, `Preservation`, `EndToEnd` | a reference machine over decoded instructions, its agreement with the manual instruction by instruction, the simulation, whole runs, and the path from bytes to results |
| `CallDiscipline` | nested calls and frames on the IR machine |
| `Placement`, `Relocation`, `Loader`, `Linking`, `Symbols`, `LoadOutcome` | section placement, relocations, `load_object`, decoding of linked code, what a load makes of symbols, and when it succeeds |
| `Gpubench`, `GpubenchCode`, `Showcase`, `Mandelbrot`, `Example` | guest programs |

The source's loops, cursors and objects are methods and classes that update their
state in place; each is proved against a function, and the theorems are about the
functions. A machine word is an integer below 2^64 and wrap-around is written out; the
bitwise operators are defined by their bits.

Where a method is proved against a function, a second description says what the function
computes without naming it: an assembler for the decoder's table (`OpcodeMap`), the
instructions' meaning for the reference machine (`Manual`), single bits and exact integers
for shifts, products, operations and flags (`Arithmetic`), addresses of placed sections for
the loader (`Symbols`, `LoadOutcome`), an orbit and its first point outside the circle for
the pictures (`Mandelbrot`).

The central relation is between the reference machine, whose program counter and
return slots hold guest addresses, and the IR machine, where both hold IR indices. It
tracks two sets: the live return slots, and the bytes on which the two memories may
differ. A slot stays in the second set after its return until something is stored over
it: a relation that allowed a difference on live slots only would be false
(`Preservation.DeadSlotDiffers`). A run is disciplined if calls find room for a fresh
slot, returns use a live one, and nothing else reads a byte that may differ or writes
into a live slot.

The reference machine gives every operand its own meaning: a memory source is loaded, a
register source is read, an extension is from the source's width, a RIP-relative operand
is relative to the next instruction, and a byte or word written to a register leaves the
rest of it; `Manual` proves that this is what each instruction of the opcode map means.
`Reference.InFragment` lists the instructions for which the IR encoding keeps
that meaning. For every kind of scaled-index operand (`EncodingLimits`) and for register,
memory and RIP-relative operands (`OperandForms`) the exact condition is proved, as an
equivalence, with failing inputs. `Example` is a guest that meets the conditions of the
theorems about whole runs and calls.

Some of the source's range checks add in 64 bits and can wrap around. An access that
passes such a check outside its buffer is called wild, and the model promises nothing
after it; the theorems about loading say when it happens, and assume that it did not.

## What the proofs found

Where the code and its comments or the standards differ, the model follows the code.

- Bit 0x10 of a record's aux byte is both the low bit of the scale and the
  store-immediate flag. Scaled indices survive only at scales 1 and 4 (loads, register
  stores) or 2 and 8 (immediate stores). Read-modify-write records lose their operation
  or their immediate to a scaled index, comparisons lose the index.
- Opcodes 8B, 8A, 63, 0F B6 and 0F BE on a register are lowered to a load from the address
  in that register; 03, 2B and 33 on memory ignore the memory operand, and 81 on memory
  operates on a register; a sign-extending byte load reads four bytes, and sign-extends
  to 64 bits where 32 are asked for.
- Byte moves into a register clear the rest of it.
- ADC and SBB with an immediate are decoded as ADD and SUB, and INC and DEC set CF.
- The decoder ignores REX.X and reads an absent SIB index as RSP, so `[rsp + d]` becomes
  `[rsp + rsp + d]`.
- Push, pop and mov-immediate take the register's top bit from REX.R instead of REX.B:
  `push r12` is decoded as `push rsp`.
- Opcode 81 is always 32-bit; 83, C7, 8D, C1, D1, FF and 63 are always 64-bit; and any REX
  prefix makes 89, 8B, 01 and the other operations on a register and an r/m operand 64-bit.
- A relative branch under a REX prefix goes one byte short of its target.
- Without a REX prefix AH, CH, DH and BH are taken for RSP, RBP, RSI and RDI.
- The test record only ever sets ZF and SF; a stale flag survives.
- RIP-relative plain loads and register stores use `cpu.rip`, which the interpreter never
  advances; extending loads, immediate stores, read-modify-writes, comparisons, tests and
  multiplications use RBP or R13 instead, and a read-modify-write with a register turns
  ADD into SUB, AND into OR, and makes XOR store 0.
- A budget above 2^32 - 4096 is never reached, because the step counter wraps; such a run
  ends only if all guests halt.
- The range checks of the host's memory and of the object loader wrap around, so that
  accesses just below 2^64 pass them.
- A section whose alignment wraps around the end of the address space is placed at 0.
- Running on the device leaves guest RAM holding the last vCPU's memory; the host
  backend leaves it alone.
- A relocation section whose target section is not placed (for instance one for
  `.eh_frame`) patches guest RAM at its bare offsets, and a 32-bit field that begins in
  the last seven bytes of RAM is not patched at all.
- An unknown opcode inside a basic block leaves a gap that translation
  continues behind; at the start of a block it ends translation.
- The comment in `gpubench.S` adds a term id * ITER to the exit value; the code does not
  compute it.
- The Mandelbrot guest never draws `#`.

## Model

| member | source | states |
|---|---|---|
| `StatusFlags.SubFlags` | alpha/gpu-cpu-emulator/cuda/ir_interpreter.cuh:113-133 | after a subtraction CF is the borrow, ZF equality, OF "the exact signed difference leaves the range", SF the sign of the truncated difference, at every width |
| `StatusFlags.AddFlags` | alpha/gpu-cpu-emulator/cuda/ir_interpreter.cuh:113-133 | after an addition CF is the carry, OF "the exact signed sum leaves the range", ZF and SF those of the truncated sum, at every width |
| `StatusFlags.CompareThenBranch` | alpha/gpu-cpu-emulator/cuda/ir_interpreter.cuh:113-177 | after a comparison, codes 0/1 hold if the signed difference leaves the range or does not, 8/9 if the truncated difference is negative or not, 2/3/6/7 decide unsigned order, 4/5 equality and C/D/E/F two's-complement order of the truncated operands, each in both directions, at widths 1, 2, 4 and 8 |
| `StatusFlags.CcPairs` | alpha/gpu-cpu-emulator/cuda/ir_interpreter.cuh:153-177 | every odd condition code is the negation of the even one before it |
| `StatusFlags.FlagsWord.SetFlagsArith` | alpha/gpu-cpu-emulator/include/x86/state.hpp:25-47 | the host's bit-by-bit flag update leaves the same four flags as the interpreter's `update_flags` on add and subtract |
| `Arithmetic.ShiftBits` | alpha/gpu-cpu-emulator/cuda/ir_interpreter.cuh:415-432 | each bit of the three shifts, for every count and width: bit k - n of the source or 0, bit k + n, bit k + n or the sign bit |
| `Arithmetic.ArithmeticShiftIsFloor` | alpha/gpu-cpu-emulator/cuda/ir_interpreter.cuh:417-427 | the signed shift to the right is the floor of the signed quotient by 2^n |
| `Arithmetic.ShiftStep` | alpha/gpu-cpu-emulator/cuda/ir_interpreter.cuh:415-432 | after a shift record: each bit of its register by the kind in aux and the low six bits of the immediate, the signed one also as a floor; nothing else changes |
| `Arithmetic.ImulCongruent` | alpha/gpu-cpu-emulator/cuda/ir_interpreter.cuh:398-413 | the signed value of a product is congruent to the product of the signed operands modulo 2^(8w) |
| `Arithmetic.MultiplyStep` | alpha/gpu-cpu-emulator/cuda/ir_interpreter.cuh:398-413 | the same on the register after a multiplication record, with a register or memory; nothing else changes |
| `Arithmetic.OperationIs` | alpha/gpu-cpu-emulator/cuda/ir_interpreter.cuh:102-133 | for every operation number, operands and width, result and all four flags: sum and carry, difference and borrow, and AND, OR and XOR bit by bit with ZF exactly when every bit combines to false, SF the combined sign bits, CF and OF clear |
| `Arithmetic.RegisterOperationStep` | alpha/gpu-cpu-emulator/cuda/ir_interpreter.cuh:249-267 | that result and those flags after an operation of a register with a register or an immediate; nothing else changes |
| `Arithmetic.MemoryOperationStep` | alpha/gpu-cpu-emulator/cuda/ir_interpreter.cuh:269-295 | the same in memory after a read-modify-write with a register or an immediate; registers keep their contents |
| `Arithmetic.CompareThenJump` | alpha/gpu-cpu-emulator/cuda/ir_interpreter.cuh:297-323 | a comparison record of any form and a conditional jump behind it: the jump is taken exactly if its condition holds of the two values as integers, and only flags and pc change |
| `Memory.LoadMemIsLE` | alpha/gpu-cpu-emulator/cuda/ir_interpreter.cuh:25-61 | a load is the little-endian number of its bytes if all lie in memory, and 0 otherwise |
| `Memory.StoreMemAt` | alpha/gpu-cpu-emulator/cuda/ir_interpreter.cuh:63-100 | what a store leaves at each address: its byte if the whole store is in range, else the old byte |
| `Memory.LoadAfterStore` | alpha/gpu-cpu-emulator/cuda/ir_interpreter.cuh:25-100 | an in-range store followed by a load at the same place and width gives the truncated value |
| `Memory.MemoryRefinesByteMap` | alpha/gpu-cpu-emulator/cuda/ir_interpreter.cuh:25-100 | after any sequence of stores of any widths, overlapping or not, in range or not, a load at any width reads the last byte written at each of its addresses, and 0 out of range |
| `Memory.LoadFrom` | alpha/gpu-cpu-emulator/cuda/ir_interpreter.cuh:25-61 | the load on one vCPU's slice of a shared byte array is the load on that slice as a value |
| `Memory.StoreTo` | alpha/gpu-cpu-emulator/cuda/ir_interpreter.cuh:63-100 | the in-place store changes its slice as the value-level store does, and no byte outside the slice |
| `Memory.PassesIff` | alpha/gpu-cpu-emulator/src/virt/memory.cpp:7-11 | the range check passes if and only if the access is in range or its end wraps around to an address inside the buffer; for lengths up to the size, if and only if in range or the sum wraps |
| `Memory.WildReads` | alpha/gpu-cpu-emulator/src/virt/memory.cpp:22-46 | in RAM of any size from eight bytes on the check passes for the last byte of the address space and for a word that ends beyond it |
| `Memory.GuestMemory.Load` | alpha/gpu-cpu-emulator/src/virt/memory.cpp:7-20 | the host copy is refused exactly when the 64-bit sum exceeds the size, and then changes nothing; in range it writes exactly the data; otherwise it is wild |
| `Memory.GuestMemory.Read` | alpha/gpu-cpu-emulator/src/virt/memory.cpp:22-46 | the host read at each width succeeds exactly in range and then agrees with the interpreter's load, and is wild exactly when out of range the check still passes |
| `Memory.GuestMemory.Write` | alpha/gpu-cpu-emulator/src/virt/memory.cpp:48-66 | the host write at each width succeeds exactly in range and leaves memory as the interpreter's store does, and is wild exactly when out of range the check still passes |
| `IrInterpreter.ExecIr` | alpha/gpu-cpu-emulator/cuda/ir_interpreter.cuh:181-444 | the loop over register array, flags, memory slice and pc computes `Ir.Exec`, the pure step machine, for any number of steps, and writes nothing outside the slice |
| `IrInterpreter.ExecOp` | alpha/gpu-cpu-emulator/cuda/ir_interpreter.cuh:190-440 | one pass of the switch carries out the effect of its record: registers, flags, one store, control and status |
| `IrInterpreter.ExecRegisters` | alpha/gpu-cpu-emulator/cuda/ir_interpreter.cuh:193-215 | nop, load-immediate, register moves, lea and shifts, in place, as the step machine has them; what a shift computes is `Arithmetic.ShiftStep` |
| `IrInterpreter.ExecLoad` | alpha/gpu-cpu-emulator/cuda/ir_interpreter.cuh:217-232 | memory loads: address form, width and zero or sign extension |
| `IrInterpreter.ExecStore` | alpha/gpu-cpu-emulator/cuda/ir_interpreter.cuh:234-247 | memory stores of a register or of an immediate |
| `IrInterpreter.ExecBinOp` | alpha/gpu-cpu-emulator/cuda/ir_interpreter.cuh:249-267 | binary operations into a register, in place, as the step machine has them; result and flags are those of `Arithmetic.RegisterOperationStep` |
| `IrInterpreter.ExecBinOpMem` | alpha/gpu-cpu-emulator/cuda/ir_interpreter.cuh:269-295 | read-modify-write operations on memory, in place; result and flags are those of `Arithmetic.MemoryOperationStep` |
| `IrInterpreter.ExecCmpReg` | alpha/gpu-cpu-emulator/cuda/ir_interpreter.cuh:297-312 | comparisons of registers, or of a register and memory in either order |
| `IrInterpreter.ExecCmpImm` | alpha/gpu-cpu-emulator/cuda/ir_interpreter.cuh:314-323 | comparisons with an immediate |
| `IrInterpreter.ExecTest` | alpha/gpu-cpu-emulator/cuda/ir_interpreter.cuh:325-336 | the test record, including flags it fails to clear |
| `IrInterpreter.ExecStack` | alpha/gpu-cpu-emulator/cuda/ir_interpreter.cuh:338-377 | push, pop and leave in place |
| `IrInterpreter.ExecControl` | alpha/gpu-cpu-emulator/cuda/ir_interpreter.cuh:359-396 | jumps, calls, returns, halt and syscall: status and next pc |
| `IrInterpreter.ExecImul` | alpha/gpu-cpu-emulator/cuda/ir_interpreter.cuh:398-413 | signed multiplication, modulo the width |
| `Ir.ExecCompose` | alpha/gpu-cpu-emulator/cuda/ir_interpreter.cuh:185-190 | running a + b steps is running a steps and then b, unless the first part stopped |
| `Ir.StepFrame` | alpha/gpu-cpu-emulator/cuda/ir_interpreter.cuh:181-444 | a step keeps the memory size, rip and the last syscall result, and halts or traps exactly when its status says so |
| `Vcpu.VirtualCpu.constructor` | alpha/gpu-cpu-emulator/src/virt/vcpu.cpp:6-10 | a new vCPU starts at its entry with its stack 0x100 below the end of RAM and cleared registers |
| `Vcpu.VirtualCpu.HandleSyscall` | alpha/gpu-cpu-emulator/src/linux/syscalls.cpp:33-70 | serving a call changes only rax, the result, halt and the pending mark, as a function of registers and memory size; guest memory is not touched |
| `Schedule.TurnIsAlone` | alpha/gpu-cpu-emulator/src/emulator.cpp:205-227 | a turn of n instructions, its system call served at once, is some number k <= n of single-instruction turns: all n, unless the vCPU has halted or one of them halts or traps |
| `Schedule.SyscallTurn` | alpha/gpu-cpu-emulator/src/linux/syscalls.cpp:12-70 | a turn on a syscall record, in numbers: read gives 0 on standard input, write the length, -14 for a refused range and for a buffer at address 0, -38 for another file, brk its argument or half of RAM, 60 and 231 halt with their argument, any other call gives -38; the answer goes to rax and the record, no other register and no memory byte changes |
| `Schedule.HaltTurn` | alpha/gpu-cpu-emulator/cuda/ir_interpreter.cuh:185-191 | hlt, and running off the end of the code, halt the vCPU with registers and memory as they are, and no later turn changes it |
| `Schedule.RunIsAlone` | alpha/gpu-cpu-emulator/src/emulator.cpp:192-230 | under any interleaving of slices of any sizes, every vCPU is where it gets running alone after some number of steps |
| `Schedule.SameAsAlone` | alpha/gpu-cpu-emulator/src/emulator.cpp:192-230 | a vCPU that halts under a schedule and alone halts in the same state |
| `Schedule.ScheduleIndependence` | alpha/gpu-cpu-emulator/src/emulator.cpp:192-230 | any two interleavings that end with all vCPUs halted end with equal registers and equal memories |
| `Schedule.Isolation` | alpha/gpu-cpu-emulator/cuda/executor.cu:9-24 | a vCPU's state depends on its own turns only |
| `Schedule.RoundsProgress` | alpha/gpu-cpu-emulator/src/emulator.cpp:205-227 | r rounds are some number j of single steps, and unless the vCPU has halted j plus 4096 for every step that stopped a turn is at least 4096 r |
| `Schedule.EnoughRounds` | alpha/gpu-cpu-emulator/src/emulator.cpp:205-227 | a vCPU that halts alone within k steps, s of which halt or trap, is in that same halted state after ceil(k / 4096) + s rounds or any more |
| `Schedule.SufficesFrom` | alpha/gpu-cpu-emulator/src/emulator.cpp:205-227 | ceil(k / 4096) + s is the least such number of rounds |
| `Schedule.RoundsFrame` | alpha/gpu-cpu-emulator/src/emulator.cpp:205-227 | no system call is pending at a round boundary, and the memory size and rip stay |
| `Schedule.BudgetReached` | alpha/gpu-cpu-emulator/src/emulator.cpp:205-227 | the 32-bit step counter reaches the budget, whatever the guests do, if and only if max_steps <= 2^32 - 4096 |
| `Device.CudaExecutor.Kernel` | alpha/gpu-cpu-emulator/cuda/executor.cu:9-24 | a thread advances its own vCPU by any given number of steps on its slice of the shared memory and leaves every other thread's state alone |
| `Device.CudaExecutor.Launch` | alpha/gpu-cpu-emulator/cuda/executor.cu:93-99 | threads in any order: every vCPU gets exactly one slice of the given length |
| `Device.CudaExecutor.Upload` | alpha/gpu-cpu-emulator/cuda/executor.cu:76-80 | replaces one vCPU's registers and memory, no other's, and keeps its pc |
| `Device.CudaExecutor.SetPc` | alpha/gpu-cpu-emulator/cuda/executor.cu:82-85 | sets one vCPU's pc and nothing else |
| `Device.CudaExecutor.Download` | alpha/gpu-cpu-emulator/cuda/executor.cu:87-91 | copies out one vCPU's registers and memory |
| `Device.LaunchThenCollect` | alpha/gpu-cpu-emulator/src/emulator.cpp:245-262 | a launched slice of any length followed by the host's collection is one turn |
| `Backends.Emulator.HostRound` | alpha/gpu-cpu-emulator/src/emulator.cpp:208-226 | one round gives every vCPU one turn and reports whether any was still running |
| `Backends.Emulator.HostRounds` | alpha/gpu-cpu-emulator/src/emulator.cpp:205-227 | the round loop ends, for any budget, if the budget is at most 2^32 - 4096 or all vCPUs halt; within such a budget after at most ceil(max_steps / 4096) rounds; leaving it early changes nothing |
| `Backends.EndsIff` | alpha/gpu-cpu-emulator/src/emulator.cpp:205-227 | the loop has a way out, the budget reached or all vCPUs halted, if and only if max_steps <= 2^32 - 4096 or all vCPUs halt after some number of rounds |
| `Backends.Emulator.RunCpu` | alpha/gpu-cpu-emulator/src/emulator.cpp:192-230 | every vCPU ends in its end state: after ceil(max_steps / 4096) rounds of its own, or, for a budget the counter cannot reach, where all have halted; guest RAM is unchanged and the recorded memories are the vCPUs' own |
| `Backends.Emulator.Collect` | alpha/gpu-cpu-emulator/src/emulator.cpp:249-260 | download, serve, re-upload: host and device agree on the vCPU afterwards and the other vCPUs are untouched |
| `Backends.Emulator.DeviceRound` | alpha/gpu-cpu-emulator/src/emulator.cpp:245-262 | a launch and its collection give every vCPU one turn |
| `Backends.Emulator.DeviceSchedule` | alpha/gpu-cpu-emulator/cuda/executor.cu:9-24 | any sequence of turns, any vCPU for any number of steps at a time, on the one buffer that holds all memories leaves every thread as the schedule on separate memories does |
| `Backends.Emulator.RunGpu` | alpha/gpu-cpu-emulator/src/emulator.cpp:232-271 | the same end states and recorded memories as on the host, for the same budgets; guest RAM is left holding the last vCPU's memory, or is unchanged without a round |
| `Backends.Emulator.HandleTraps` | alpha/gpu-cpu-emulator/src/emulator.cpp:147-153 | serves exactly the calls still pending, and leaves every other vCPU as it is |
| `Backends.Emulator.ServeAndKeep` | alpha/gpu-cpu-emulator/src/emulator.cpp:171 | after a run none is pending, so serving the traps changes no register |
| `Backends.Emulator.Run` | alpha/gpu-cpu-emulator/src/emulator.cpp:155-183 | on either backend, for every budget with which the run ends: end states, recorded memories, halted if and only if all are, and the exit code of the last halted vCPU; nothing runs without code |
| `Backends.ResultIs` | alpha/gpu-cpu-emulator/src/emulator.cpp:173-182 | the report: halted if and only if every vCPU is, the exit value of the last vCPU that has halted, 0 if none has, and the budget for the steps |
| `Backends.AddVcpu` | alpha/gpu-cpu-emulator/src/emulator.cpp:83-93 | appends a vCPU with the given registers, its entry and its own stack pointer |
| `Backends.RunBoth` | alpha/gpu-cpu-emulator/src/main.cpp:239-300 | the two backends agree, for every budget with which the run ends: the same guests end with equal registers, equal vCPU memories and equal results on the host and on the device |
| `Reference.FindPc` | alpha/gpu-cpu-emulator/src/emulator.cpp:27-39 | in gap-free code instruction starts and indices correspond one to one |
| `Reference.FindNext` | alpha/gpu-cpu-emulator/src/emulator.cpp:27-39 | falling through moves to the next index |
| `Manual.StepMeans` | alpha/gpu-cpu-emulator/src/x86/decode.cpp:114-586 | for every instruction of the opcode map, operand, prefix and state: the reference machine's step does what the manual says, in registers, addresses, bits and exact flags, at the widths and targets the decoder gives (`ModRm.WidthIff`, `ModRm.BranchTargetIff`) |
| `Manual.BytesMean` | alpha/gpu-cpu-emulator/src/x86/decode.cpp:114-586 | from bytes: the encoding of an instruction, decoded where it stands whatever follows, steps as the manual says, whenever its index register is one the decoder reads right |
| `Simulation.LoadAddressRoundTrip` | alpha/gpu-cpu-emulator/cuda/ir_interpreter.cuh:135-151 | the packed address of a load evaluates to base + index * scale + displacement, the base dropped for an absolute operand |
| `Simulation.EncodedAddressRoundTrip` | alpha/gpu-cpu-emulator/src/translator.cpp:10-27 | the packed address of a store evaluates to the operand's address, and the stored value is the intended register or immediate |
| `Simulation.SameLoad` | alpha/gpu-cpu-emulator/src/translator.cpp:42-344 | in the fragment the IR record makes the load the instruction makes |
| `Simulation.SameEffect` | alpha/gpu-cpu-emulator/src/translator.cpp:42-344 | in the fragment the IR record has the instruction's effect: same registers, flags and store |
| `Simulation.StepSimulation` | alpha/gpu-cpu-emulator/src/emulator.cpp:23-55 | one disciplined guest step is one IR step with the same status and registers; pc = index of the guest pc, memories equal except tracked return slots, live ones holding the index of the guest return address |
| `Preservation.RunSimulation` | alpha/gpu-cpu-emulator/src/emulator.cpp:23-55 | the same for any number of steps, system calls included |
| `Preservation.BackendRunsGuest` | alpha/gpu-cpu-emulator/src/emulator.cpp:192-275 | a guest whose reference run halts within k steps, s of which halt or trap, halts within ceil(k / 4096) + s rounds on either backend, and whenever it has halted it has the reference run's registers, flags and exit value |
| `Preservation.DeadSlotDiffers` | alpha/gpu-cpu-emulator/cuda/ir_interpreter.cuh:359-371 | right after a call and its return no slot is live, yet the memories differ: the relation must keep dead slots apart |
| `Translator.EmitValid` | alpha/gpu-cpu-emulator/src/translator.cpp:42-344 | no emitted record names a register outside the register file, whatever the instruction |
| `Translator.EncodeParts` | alpha/gpu-cpu-emulator/src/translator.cpp:10-27 | every field `encode_mem_addr` leaves in a record, including the scale it really encodes |
| `Translator.SourceParts` | alpha/gpu-cpu-emulator/src/translator.cpp:83-110 | the same for load-like records |
| `EncodingLimits.LoadIff` | alpha/gpu-cpu-emulator/src/translator.cpp:83-110 | a load of a memory operand reads what the operand means for all register contents if and only if there is no scaled index, or the scale is 1 or 4, or the index is the base (sign-extending loads drop the index), and a zero extension is from one byte, a sign extension from four |
| `EncodingLimits.StoreRegIff` | alpha/gpu-cpu-emulator/src/translator.cpp:112-127 | a register store is right for all register contents if and only if it has no scaled index or the scale is 1 or 4 |
| `EncodingLimits.StoreImmIff` | alpha/gpu-cpu-emulator/src/translator.cpp:55-71 | an immediate store is right for all register contents if and only if it has no scaled index or the scale is 2 or 8 |
| `EncodingLimits.LeaIff` | alpha/gpu-cpu-emulator/src/translator.cpp:254-275 | a lea computes its operand's address for all register contents under the same condition as a load, and only then |
| `EncodingLimits.ImulIff` | alpha/gpu-cpu-emulator/src/translator.cpp:300-322 | so does the load of a multiplication by memory |
| `EncodingLimits.CompareIff` | alpha/gpu-cpu-emulator/src/translator.cpp:174-208 | a comparison with memory reads the right address for all register contents if and only if its scaled index makes no difference, since it is dropped |
| `EncodingLimits.RmwRegIff` | alpha/gpu-cpu-emulator/src/translator.cpp:159-172 | a read-modify-write with a register is right for all registers and memory contents if and only if it has no scaled index, or its scale happens to encode the operation and the index register is found |
| `EncodingLimits.RmwImmIff` | alpha/gpu-cpu-emulator/src/translator.cpp:149-157 | a read-modify-write with an immediate is right for all registers and memory contents if and only if it has no scaled index, or the immediate happens to equal the index register's number and the index register is found |
| `EncodingLimits.PushIff` | alpha/gpu-cpu-emulator/cuda/ir_interpreter.cuh:338-343 | a push pushes the right value if and only if its register is not RSP |
| `EncodingLimits.TestIff` | alpha/gpu-cpu-emulator/cuda/ir_interpreter.cuh:325-336 | the test record leaves the flags of AND if and only if no stale ZF or SF is left over |
| `OperandForms.ThreeForms` | alpha/gpu-cpu-emulator/src/x86/decode.cpp:71-107 | whatever the bytes, an r/m operand is memory at an address from registers, a register, or memory relative to the next instruction |
| `OperandForms.MoveIff` | alpha/gpu-cpu-emulator/src/translator.cpp:83-110 | a move from an r/m operand makes its load and has its effect, for all registers and values, if and only if the operand is in memory at an address the record keeps, the destination is 32- or 64-bit, a zero extension is from a byte and a sign extension from four bytes to eight |
| `OperandForms.RegisterOperationIff` | alpha/gpu-cpu-emulator/src/translator.cpp:129-137 | an operation into a register is right if and only if its source is a register and its width 32 or 64 bits |
| `OperandForms.ImmediateOperationIff` | alpha/gpu-cpu-emulator/src/translator.cpp:139-147 | an operation with an immediate lowered to a register record is right if and only if its destination is a register and its width 32 or 64 bits |
| `OperandForms.RegisterMoveIff` | alpha/gpu-cpu-emulator/src/translator.cpp:55-127 | a move of a register or an immediate into a register operand is right if and only if its width is 32 or 64 bits |
| `OperandForms.PopIff` | alpha/gpu-cpu-emulator/cuda/ir_interpreter.cuh:344-347 | a pop is right if and only if its register is not RSP |
| `OperandForms.RipAddressIff` | alpha/gpu-cpu-emulator/src/translator.cpp:10-27 | an operand relative to the next instruction is accessed at the right address if and only if the next address is what the record uses instead: `cpu.rip` for a plain load and a register store, and the base register for zero- and sign-extending loads, immediate stores, read-modify-writes, comparisons, tests and multiplications |
| `OperandForms.RipRmwValues` | alpha/gpu-cpu-emulator/cuda/ir_interpreter.cuh:269-295 | a read-modify-write of such an operand with a register stores the value of the operation whose number is the instruction's with the low bit set: SUB for ADD and SUB, OR for AND and OR, and 0 for XOR |
| `OperandForms.RipOperationIff` | alpha/gpu-cpu-emulator/src/translator.cpp:159-172 | a read-modify-write of such an operand with a register stores the right value for all registers and memory contents if and only if it is a subtraction or an OR |
| `OperandForms.GroupOperationIff` | alpha/gpu-cpu-emulator/src/x86/decode.cpp:209-262 | the operation decoded for 83 and 81 has the standard's result for all operands and carries if and only if it is not ADC or SBB |
| `OperandForms.IncDecFlagsIff` | alpha/gpu-cpu-emulator/src/x86/decode_extended.cpp:239-256 | the record of an increment or decrement of a register leaves the flags the standard does if and only if CF already was the carry or borrow |
| `OperandForms.MoveFromRegisterFails` | alpha/gpu-cpu-emulator/src/translator.cpp:83-110 | the bytes of mov rax, rbx, with 16 in rbx and no memory, leave 16 by their meaning and 0 on the IR machine |
| `OperandForms.AddFromMemoryFails` | alpha/gpu-cpu-emulator/src/translator.cpp:129-137 | the bytes of add rax, [rbx], with 1 in rax and 0 loaded, leave 1 by their meaning and 2 on the IR machine |
| `OperandForms.MoveSignedByteFails` | alpha/gpu-cpu-emulator/src/translator.cpp:102-105 | the bytes of movsx eax, byte [rbx] leave 1 by their meaning and 0x01010101 on the IR machine, on a memory of ones |
| `OperandForms.AddToMemoryFails` | alpha/gpu-cpu-emulator/src/translator.cpp:139-147 | the bytes of add dword [rbx], 1 leave rax alone by their meaning and add to it on the IR machine |
| `OperandForms.RipAddSubtracts` | alpha/gpu-cpu-emulator/src/translator.cpp:159-172 | the bytes of add [rip], rax subtract, even where the base register happens to hold the next address |
| `Flatten.FlattenIr` | alpha/gpu-cpu-emulator/src/emulator.cpp:23-55 | two passes over the blocks: the index map of all entries, and the code with every branch linked through it |
| `Flatten.IndexMapAt` | alpha/gpu-cpu-emulator/src/emulator.cpp:27-39 | an address is mapped exactly if an entry has it, and to the last such entry |
| `Flatten.EntryAt` | alpha/gpu-cpu-emulator/src/emulator.cpp:27-39 | record i of a block stands behind the records of all blocks before it, filed under its listed address or else counted from the block's own |
| `Flatten.LinkedRecord` | alpha/gpu-cpu-emulator/src/emulator.cpp:41-53 | a branch goes to the last entry filed under its target, or to index 0 if there is none; every other record is left as it is |
| `Flatten.IndexMapBijection` | alpha/gpu-cpu-emulator/src/emulator.cpp:27-39 | for distinct guest PCs the map is a bijection between instruction starts and stream indices |
| `Flatten.TargetsInside` | alpha/gpu-cpu-emulator/src/emulator.cpp:41-53 | every linked branch target is a valid index of non-empty code |
| `Flatten.CutIndependence` | alpha/gpu-cpu-emulator/src/emulator.cpp:23-55 | the stream depends only on the concatenation of the blocks: cutting any block in two changes nothing |
| `Flatten.IndexMapIsFind` | alpha/gpu-cpu-emulator/include/emulator.hpp:20-23 | the map finds exactly what the reference machine finds |
| `Flatten.FlatIsCompiled` | alpha/gpu-cpu-emulator/src/emulator.cpp:23-55 | flattening a gap-free program with closed branches gives its records with branch targets replaced by instruction indices |
| `Decoder.Decoder.FetchW` | alpha/gpu-cpu-emulator/src/x86/decode.cpp:9-35 | a fetch gives the little-endian bytes and advances, or gives 0 and consumes nothing |
| `Decoder.Decoder.ParseSib` | alpha/gpu-cpu-emulator/src/x86/decode.cpp:57-69 | the cursor parser of the SIB byte agrees with the table description, byte for byte |
| `Decoder.Decoder.ParseModrm` | alpha/gpu-cpu-emulator/src/x86/decode.cpp:71-107 | the same for ModR/M, SIB and displacement |
| `Decoder.Decoder.Decode0f` | alpha/gpu-cpu-emulator/src/x86/decode_extended.cpp:5-81 | two-byte opcodes agree with the description, and failures are unknown opcodes |
| `Decoder.Decoder.DecodeExtended` | alpha/gpu-cpu-emulator/src/x86/decode_extended.cpp:83-259 | the extended opcodes agree with the description |
| `Decoder.Decoder.EarlyRows` | alpha/gpu-cpu-emulator/src/x86/decode.cpp:280-578 | the ModR/M opcodes of `decode_one`, with and without a REX prefix, agree with one table, which `OpcodeMap.DecodingInvertsTheMap` proves to be the opcode map |
| `Decoder.Decoder.DecodeOne` | alpha/gpu-cpu-emulator/src/x86/decode.cpp:114-586 | the branching decoder, fetch by fetch, decodes what the table-driven description says (the opcode map, by `OpcodeMap.DecodingInvertsTheMap`); on success pc and cursor advance by the size, on failure exactly as described |
| `DecoderFacts.SelfDelimiting` | alpha/gpu-cpu-emulator/src/x86/decode.cpp:114-586 | a successful decode has 1 <= size <= 12 inside the buffer, and if no fetch ran past the end any buffer agreeing on those bytes decodes to the same instruction |
| `OpcodeMap.DecodingInvertsTheMap` | alpha/gpu-cpu-emulator/src/x86/decode.cpp:114-586 | an assembler from the Intel SDM's opcode map (names, operand order, digits, condition codes, signed immediates, REX prefixes), and the decoder inverts it: the bytes of every supported one- and two-byte opcode with any operands, immediates and following bytes decode to exactly that instruction, all fields |
| `UnknownOpcodes.UnknownOpcodeFails` | alpha/gpu-cpu-emulator/src/x86/decode_extended.cpp:83-259 | every other first opcode byte, with or without a REX prefix, fails and moves the pc past it |
| `UnknownOpcodes.UnknownSecondFails` | alpha/gpu-cpu-emulator/src/x86/decode_extended.cpp:5-81 | so does every other byte behind 0F |
| `UnknownOpcodes.UnknownDigitFails` | alpha/gpu-cpu-emulator/src/x86/decode_extended.cpp:190-259 | a digit outside the group of C1, D1 and FF fails behind the ModR/M byte, one of C7 without moving the pc |
| `UnknownOpcodes.CutShort` | alpha/gpu-cpu-emulator/src/x86/decode.cpp:280-578 | bytes that end behind an opcode that takes an operand fail, and which opcodes then leave the pc where it is |
| `ModRm.ParseInvertsEncoding` | alpha/gpu-cpu-emulator/src/x86/decode.cpp:46-112 | for every base, index, scale and displacement form, encoding per the Intel SDM and parsing consumes exactly the encoded bytes and gives the operand up to the index register's top bit |
| `ModRm.EveryOperandIsEncoded` | alpha/gpu-cpu-emulator/src/x86/decode.cpp:46-112 | conversely every byte string the parser accepts is the encoding of the address the standard reads in it |
| `ModRm.MeaningKeptIff` | alpha/gpu-cpu-emulator/src/x86/decode.cpp:57-69 | the decoded operand means the standard's address for all register contents if and only if there is no SIB byte or its index is one of the first eight registers |
| `ModRm.StackRelativeMisread` | alpha/gpu-cpu-emulator/src/x86/decode.cpp:57-69 | `[rsp + d]` always needs an absent index and is read as `[rsp + rsp + d]` |
| `ModRm.OpcodeRegisterIff` | alpha/gpu-cpu-emulator/src/x86/decode.cpp:162-189 | push, pop and mov-immediate find the register the standard names if and only if REX.B equals REX.R |
| `ModRm.ByteRegisterIff` | alpha/gpu-cpu-emulator/src/x86/decode_extended.cpp:124-159 | the register operand of a byte opcode is the one the standard names if and only if there is a REX prefix or it is one of the first four |
| `ModRm.WidthIff` | alpha/gpu-cpu-emulator/src/x86/decode.cpp:114-586 | for every one- and two-byte opcode with an operand width, it is the standard's if and only if: REX.W is set or there is no REX prefix (89, 8B, 01, 29, 31, 33, 21, 09, 03, 2B, 39, 3B, 85), REX.W is set (8D, 83, C7, C1, D1, FF, 63), REX.W is clear (81), and always otherwise |
| `ModRm.BranchTargetIff` | alpha/gpu-cpu-emulator/src/x86/decode_extended.cpp:91-110 | the target of a relative branch is the end of the instruction plus its displacement if and only if it has no REX prefix |
| `Blocks.DecodeBasicBlock` | alpha/gpu-cpu-emulator/src/x86/decode.cpp:588-603 | a fresh decoder run to the end of a basic block: its instructions and the distance its pc moved |
| `Blocks.Translate` | alpha/gpu-cpu-emulator/src/translator.cpp:346-366 | the block loop terminates on any input and computes the blocks |
| `Blocks.BlockShape` | alpha/gpu-cpu-emulator/src/x86/decode.cpp:588-603 | on any bytes a block ends behind its first jump, conditional jump, return, halt or system call, and else where decoding fails, the bytes skipped there counted as its own |
| `Blocks.BlocksAgainstSweep` | alpha/gpu-cpu-emulator/src/translator.cpp:346-366 | on any bytes, what is decoded block by block is one linear sweep and, exactly when its first failure is inside a block and skips bytes, whatever decodes behind the gap |
| `Blocks.FullyDecodedBlocks` | alpha/gpu-cpu-emulator/src/translator.cpp:346-366 | on a stream that decodes to its end, block-wise decoding is the single sweep |
| `Blocks.BlockEntriesOf` | alpha/gpu-cpu-emulator/src/translator.cpp:355-363 | one IR record per instruction, filed under the instruction's own address |
| `Blocks.DecodedInOrder` | alpha/gpu-cpu-emulator/src/translator.cpp:346-366 | on any bytes at any address the decoded instructions stand in strictly increasing, non-overlapping order behind the first address, also around the end of the address space; no two records have the same PC |
| `Blocks.BlockRanges` | alpha/gpu-cpu-emulator/src/translator.cpp:346-366 | on any bytes at any address the blocks' address ranges are ordered and disjoint in the same sense |
| `EndToEnd.TranslateCode` | alpha/gpu-cpu-emulator/src/emulator.cpp:95-101 | translating a code section gives flat code filed under as many distinct addresses as it has records |
| `EndToEnd.SweepCovers` | alpha/gpu-cpu-emulator/src/x86/decode.cpp:588-603 | a fully decoding stream is covered from end to end by contiguous instructions |
| `EndToEnd.BytesAreCompiled` | alpha/gpu-cpu-emulator/src/emulator.cpp:95-101 | bytes that decode to their end into a closed program become that program's records, and the entry lookup finds instruction indices |
| `EndToEnd.BytesRunLikeReference` | alpha/gpu-cpu-emulator/src/emulator.cpp:95-275 | from bytes through decoder, translator, flattening and rounds: the vCPU halts within ceil(k / 4096) + s rounds when the reference machine halts within k steps, s of which halt or trap, with its registers, flags and exit value |
| `CallDiscipline.Nesting` | alpha/gpu-cpu-emulator/cuda/ir_interpreter.cuh:338-377 | at any depth, a run shaped by nested calls, pushes and frames that spares the protected slots keeps them, and ends with the stack pointer it had if it is balanced |
| `CallDiscipline.CallReturns` | alpha/gpu-cpu-emulator/cuda/ir_interpreter.cuh:359-371 | a call at index i whose body is balanced and spares the return slot comes back to i + 1 with its stack pointer |
| `CallDiscipline.LeaveUndoes` | alpha/gpu-cpu-emulator/cuda/ir_interpreter.cuh:338-377 | leave undoes push-rbp/mov-rbp-rsp around any body that keeps RBP and the saved slot |
| `CallDiscipline.CallComesBack` | alpha/gpu-cpu-emulator/cuda/ir_interpreter.cuh:359-371 | the same counted in instructions of the vCPU running alone |
| `Placement.AlignUpIsNext` | alpha/gpu-cpu-emulator/src/guest/elf_loader.cpp:84-87 | for a power of two `align_up` gives the least multiple that is not below, unless the sum wraps |
| `Placement.AlignUpWraps` | alpha/gpu-cpu-emulator/src/guest/elf_loader.cpp:84-87 | if the sum wraps it gives 0 |
| `Placement.LastAddressWraps` | alpha/gpu-cpu-emulator/src/guest/elf_loader.cpp:84-87 | aligning 2^64 - 1 to 16 gives 0 |
| `Placement.PlacementSound` | alpha/gpu-cpu-emulator/src/guest/elf_loader.cpp:218-242 | for power-of-two alignments, any load base and any sizes: placement that comes to its end has put the sections at ordered, pairwise disjoint, aligned intervals inside RAM holding the file's bytes (zeros for .bss), changing nothing else, if and only if no alignment wraps around the end of the address space |
| `Relocation.FieldValue` | alpha/gpu-cpu-emulator/src/guest/elf_loader.cpp:270-315 | fields that do not overlap all hold their truncated values at the end |
| `Relocation.AppliedIff` | alpha/gpu-cpu-emulator/src/guest/elf_loader.cpp:287 | a field of a supported type is patched if and only if there are eight bytes of RAM at its place, whatever its width |
| `Relocation.UnpatchedField` | alpha/gpu-cpu-emulator/src/guest/elf_loader.cpp:270-315 | a field apart from all patched fields keeps what was there |
| `Relocation.OrderIndependent` | alpha/gpu-cpu-emulator/src/guest/elf_loader.cpp:279-321 | relocations with disjoint fields give the same memory in any order |
| `Loader.Loading.Place` | alpha/gpu-cpu-emulator/src/guest/elf_loader.cpp:218-237 | the in-place placement of one section, error cases and accesses that pass a wrapped check included |
| `Loader.Loading.FindSec` | alpha/gpu-cpu-emulator/src/guest/elf_loader.cpp:201-206 | the first section with a name, or none |
| `Loader.Loading.ApplyRela` | alpha/gpu-cpu-emulator/src/guest/elf_loader.cpp:270-315 | one relocation section is a sequence of stores of the ABI's formulas, unless one passes the wrapped check and strays outside RAM |
| `Loader.Loading.Relocate` | alpha/gpu-cpu-emulator/src/guest/elf_loader.cpp:317-321 | all relocation sections, in order, unless a store strays |
| `Loader.Loading.FindEntry` | alpha/gpu-cpu-emulator/src/guest/elf_loader.cpp:326-338 | the first function symbol `_start`, else the start of .text |
| `Loader.LoadObject` | alpha/gpu-cpu-emulator/src/guest/elf_loader.cpp:198-342 | placement, relocation and entry in place, or the error reported; it goes wild exactly when an access passes its 64-bit range check outside RAM or outside the file. What fields, entry and errors then are, in the object file's terms, is `Symbols.FieldMeans`, `Symbols.EntryMeans` and `LoadOutcome.LoadMeans` |
| `Loader.LoadSound` | alpha/gpu-cpu-emulator/src/guest/elf_loader.cpp:218-321 | a load that succeeds without going wild is laid out soundly if and only if no alignment wraps; a supported field is patched if and only if there are eight bytes of RAM at its place; with disjoint patched fields each holds S + A or S + A - P, an unpatched field inside RAM and apart from them keeps what placement left, and so does every byte outside them |
| `Symbols.FieldMeans` | alpha/gpu-cpu-emulator/src/guest/elf_loader.cpp:260-315 | after a load without overlapping fields, for a symbol at offset v of a placed section at address p, S = p + v (0 if undefined or missing, its value if absolute): an R_64 field holds S + A modulo 2^64, R_32 and R_32S the low half of it, PC32 the low half of S + A - P |
| `Symbols.EntryMeans` | alpha/gpu-cpu-emulator/src/guest/elf_loader.cpp:323-341 | the entry reported is that address of the first function called _start, unless it is 0 or there is none or no string table, and then the start of the first section called .text; code address and size are that section's |
| `Symbols.SectionHolds` | alpha/gpu-cpu-emulator/src/guest/elf_loader.cpp:218-242 | if no alignment wraps, each of the four sections stands aligned behind the base, inside RAM, holding the file's bytes, or zeros for type 8 |
| `Symbols.SectionsFollow` | alpha/gpu-cpu-emulator/src/guest/elf_loader.cpp:239-242 | .text, .rodata, .data and .bss follow each other without overlapping |
| `Symbols.CallReaches` | alpha/gpu-cpu-emulator/src/guest/elf_loader.cpp:305-310 | a call relocated against the function at S decodes, after the load, to a call of S, if and only if S is near |
| `Symbols.LeaReaches` | alpha/gpu-cpu-emulator/src/guest/elf_loader.cpp:305-310 | the same for the immediate of a RIP-relative lea's record |
| `LoadOutcome.LoadMeans` | alpha/gpu-cpu-emulator/src/guest/elf_loader.cpp:198-244 | with the sections' positions as plain integers: without .text that error and nothing done; else the error of the last section without room in RAM or without bytes in the file; and if there is none the sections are at those positions and the load succeeds, unless a relocation leaves RAM |
| `Loader.LastFieldIsLeft` | alpha/gpu-cpu-emulator/src/guest/elf_loader.cpp:287-304 | a 32-bit field in the last four bytes of a 16-byte RAM should hold 1 and holds 0 |
| `Loader.WrappedFieldStrays` | alpha/gpu-cpu-emulator/src/guest/elf_loader.cpp:287-294 | a 64-bit field whose place is 2^64 - 4 passes the check and strays |
| `Loader.UnplacedTargetIsZero` | alpha/gpu-cpu-emulator/src/guest/elf_loader.cpp:270-280 | a relocation section for an unplaced section patches RAM at its bare offset |
| `Linking.LinkedCallIff` | alpha/gpu-cpu-emulator/src/x86/decode_extended.cpp:91-96 | a call whose displacement was relocated with PC32 - 4 decodes to the symbol if and only if S + A - P fits 32 signed bits |
| `Linking.LinkedLeaIff` | alpha/gpu-cpu-emulator/src/translator.cpp:254-259 | the same for the immediate of a RIP-relative lea's record |
| `Linking.LoadedCallIff` | alpha/gpu-cpu-emulator/src/guest/elf_loader.cpp:305-310 | from the loaded object: decoding at the call finds the symbol's placed address if and only if it fits |
| `Linking.LoadedLeaIff` | alpha/gpu-cpu-emulator/src/guest/elf_loader.cpp:305-310 | the same from the loaded object to the immediate of the RIP-relative lea's record |
| `Gpubench.TallyClosed` | alpha/gpu-cpu-emulator/guest/gpubench.S:29-43 | the sum of (id + 4k) mod 8 over an even number 2m of iterations is m * ((id mod 8) + ((id + 4) mod 8)) |
| `Gpubench.ExitValue` | alpha/gpu-cpu-emulator/guest/gpubench.S:9-48 | for every 64-bit id and any memory the guest exits after 17 + 9 ITER instructions (6 more for id 0), at most two of which trap, with that sum |
| `Gpubench.BackendExitValue` | alpha/gpu-cpu-emulator/guest/gpubench.S:9-48 | on either backend the guest halts within ceil(instructions / 4096) + 2 rounds, and the reported value is the closed form for every even ITER |
| `GpubenchCode.CodeIsProgram` | alpha/gpu-cpu-emulator/guest/gpubench.S:9-55 | the program's machine code decodes to its end, and the emulator's code for it is exactly the IR program |
| `GpubenchCode.BytesToExitValue` | alpha/gpu-cpu-emulator/guest/gpubench.S:9-55 | from bytes to exit value within that many rounds, at any load address and in any memory |
| `Showcase.RunShowcase` | alpha/gpu-cpu-emulator/src/main.cpp:172-210 | with ITER = 200000, on either backend, any number of vCPUs and any step budget above 441 * 4096, the defaults included: the run reports halted, every vCPU's exit value is 100000 * ((i mod 8) + ((i + 4) mod 8)), and the exit code is the last vCPU's |
| `Mandelbrot.PixelIsDrawn` | alpha/gpu-cpu-emulator/guest/mandel.c:11-55 | every pixel: the counter is the least n at which the orbit z' = z^2 + c of its point, products floored to 1/256, is outside radius 2, and 12 if there is none up to 12; the character is that of n (0-1 space, 2-3 `.`, 4-5 `:`, 6-7 `-`, 8-9 `=`, 10-11 `+`, 12 `*`) |
| `Mandelbrot.InteriorIsStar` | alpha/gpu-cpu-emulator/guest/mandel.c:41-55 | a pixel whose orbit never leaves the circle is drawn as `*` |
| `Mandelbrot.InteriorPixel` | alpha/gpu-cpu-emulator/guest/mandel.c:41-55 | pixel (36, 16), a fixed point, is `*` |
| `Mandelbrot.CornerPixel` | alpha/gpu-cpu-emulator/guest/mandel.c:41-55 | pixel (0, 0), outside after four steps, is `:` |
| `Mandelbrot.OrbitBounded` | alpha/gpu-cpu-emulator/guest/mandel.c:45-55 | for every pixel and iteration the coordinates stay below 2^19 and all products below 2^38 |
| `Mandelbrot.Iterate` | alpha/gpu-cpu-emulator/guest/mandel.c:41-55 | the inner loop, on 64-bit variables, computes the escape time without overflow; `Mandelbrot.PixelIsDrawn` says what that is |
| `Mandelbrot.RenderBand` | alpha/gpu-cpu-emulator/guest/mandel.c:26-65 | a vCPU draws exactly its rows and changes no other byte |
| `Mandelbrot.Render` | alpha/gpu-cpu-emulator/src/main.cpp:99-117 | for every vCPU count dividing the height the composited picture shows every pixel as its orbit demands, with the two pixels above as literals; it is the single vCPU's |
| `Mandelbrot.NeverHash` | alpha/gpu-cpu-emulator/guest/mandel.c:11-24 | twelve iterations are too few for `#`: it is never drawn |

## Left out

- Loader.LoadObject: starts from the parsed section, symbol and relocation tables; checking and casting the ELF header is not modelled. Nothing is promised after a wild access.
- Loader.LoadSound: assumes that the load did not go wild; `Loader.LoadObject` says when it does.
- Memory.GuestMemory.Load: promises nothing about memory after a wild copy.
- Backends.Emulator.RunCpu: says nothing of a budget above 2^32 - 4096 with guests that do not all halt; the source's loop then never ends (`Backends.EndsIff`).
- Backends.Emulator.RunGpu: the same.
- Simulation.StepSimulation: covers the fragment only. Outside it are read-modify-write and memory comparisons with a scaled index (their exact conditions are in `EncodingLimits`), 8- and 16-bit register operations other than byte loads and stores, sign-extending byte loads, RIP-relative operands other than of lea (`OperandForms`), the test instruction, condition codes A and B (in the source copies of C and D instead of parity), and push and pop of RSP.
- Manual.StepMeans: states the flags as the code has them where it differs from the manual: untouched by multiplications and shifts, CF written by INC and DEC. Operands whose index register the decoder misreads (`ModRm.MeaningKeptIff`) and lea of a register are not covered.
- OpcodeMap.DecodingInvertsTheMap: leaves out what the decoder reads differently from the standard: registers in the opcode with REX.B unlike REX.R (`ModRm.OpcodeRegisterIff`), the group digits of ADC and SBB (`OperandForms.GroupOperationIff`), and C6 with a digit other than 0, which the decoder ignores.
- IrInterpreter.ExecImul: signed overflow of the 64-bit product, undefined in the source, is taken to wrap; multiplication and shifts leave the flags alone, as in the source.
- Device.CudaExecutor.Launch: the threads of one launch run one after the other, in any order; `Backends.Emulator.DeviceSchedule` interleaves them on the shared buffer down to single instructions. Allocation, launch geometry and device errors are not modelled.
- Vcpu.VirtualCpu.HandleSyscall: what `sys_write` prints, also where its wrapped range check lets it read outside RAM, and handlers supplied by a user, are not modelled.
- Mandelbrot.RenderBand: follows the C text, not the machine code a compiler makes of it; signed shifts to the right are taken to be arithmetic.
- GpubenchCode.CodeIsProgram: the machine code is the standard encoding of the assembly text, with short branches.
- The other bits of rflags, which nothing changes.
- Duplicated branches of the decoder that an earlier branch makes unreachable (a second 0F B6, 0F 85, and the REX forms of 3B and C7 further down).
- `load_elf` for linked executables, file reading, command line, timing and printing.
- `vcpu_batch_kernel`, `resolve_addr` and `cpu_executor.cpp`, which add nothing to the paths above.
