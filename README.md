# A lazy per-instruction JIT for a 16-opcode bytecode

The repository runs programs for a small register machine. The machine has:

- 16 signed 32-bit registers;
- 256 bytes of memory, which hold the program;
- one 32-bit condition word;
- 16 per-opcode execution counters.

Instructions are 4 bytes long: `opcode, rx<<4 | ry, imm16 low, imm16 high`. A shift amount lives in the low five bits of the last byte. Opcodes 0x00–0x0F are defined:

- MOV immediate, MOV register, LOAD, STORE and CMP;
- JMP, JG, JL and JE, relative to the next instruction;
- ADD, SUB, AND, OR and XOR;
- SAL and SAR.

The first time the dispatch loop reaches a pc, the engine translates that instruction into x86-64 code. The code goes into the pc's 16-byte slot of an executable page. The engine then calls the code with the addresses of the registers, the counters, the memory and the condition word. The native code signals where execution goes next through the value it returns in `rax`.

Every slot starts as a *trampoline*: `lea rax, [rip+0]; ret`, which returns an address inside that slot. The host turns such an address back into a pc, which translates the next slot lazily. Any other value ends the run in the C++ host; the C host ends the run only on a value of 256 or more and takes a smaller one as the next pc. The repository has the engine twice, with different encodings and different bugs:

- `simple_jit_pqp.c`:
  - a 64-entry `not_interpreted` table indexed by `pc/4`;
  - an end trampoline `mov eax, 256; ret` at offset 1024;
  - `lahf`-based flags, examined by `test byte [rcx]`;
  - a `uint8_t` pc.
- `simple_jit_pqp.cpp`:
  - a 256-entry table indexed by pc;
  - a NOP sled from offset 1024 to the `ret` at the end of a 4096-byte page;
  - `pushf`/`popf` flags;
  - a `uint16_t` pc, and it stops on any return value that is not a slot address.

## How the model is built

The model has eight modules:

- `Words`: bytes and 32-bit words as bounded integers, with every truncation written out. It also has two's-complement readings and little-endian byte order.
- `Isa`: the instruction format (`Decode`/`Encode`), the machine state and the meaning of each data instruction (`Execute`). It also holds the x86 status flags of a compare (`Compare`) and the signed verdict the ISA intends (`SignedVerdict`).
- `CodeCache`: the slot layout and the trampoline, and lazy translation (`Translate`). It also holds the results of running native code, and the array writes that build the page (`WriteBytes`, `WriteTrampolines`).
- Four modules for the two variants:
  - `EmitterC` and `EmitterCpp` give the bytes each variant emits per instruction;
  - `JitC` and `JitCpp` describe what those bytes do once run, and the host loop.

  The host loop is written twice:
  - as functions (`Visit`, `Dispatch`) that specify it;
  - as a `JitMachine` class whose `code` array, `notInterpreted` array and fields are updated in place.

  `JitMachine.Run` is proved equal to `Dispatch`.
- `Scenarios`: both engines run on one program, `MOV R1, 5; MOV R2, 10; ADD R1, R2`.

### How native code is modelled

Native code is never executed. A slot holds either `Untranslated` or `Body(instr)`, where `instr` is the instruction decoded when the slot was translated. The class invariant ties the bytes of every slot to `Overlay(Emit(instr, pc))`, which is the emitted body laid over the trampoline and NOPs. `Call` runs bodies one slot after another:

- falling through into the next slot;
- following a jump;
- or reaching a `ret`.

Each body is one `Step`. When the emitted bytes do something the design does not intend, the model says so:

- it reaches an address outside the machine's state: `Trap`, which gives `Crash`;
- it returns whatever happens to be in `rax`: `Unspecified`, which gives `Undetermined`.

Byte-level lemmas in the emitter modules show that those bytes are the ones emitted.

### Where the code and the documented intent differ

The model follows the code in each case:

- **Invalid opcode.** The documented intent is to halt and report the invalid instruction's own pc.
  - The C code emits nothing, so the slot's trampoline keeps returning the same pc and the loop never ends (`JitC.InvalidNeverExits`).
  - The C++ code sets `pc = 256` and calls the NOP sled. The sled returns whatever `rax` holds (`JitCpp.InvalidUndetermined`).
- **Addresses.** The intent is to reduce every register-derived address modulo 256.
  - C's LOAD masks the address with `movzx eax, al` (`JitC.LoadMasked`).
  - C's STORE and both of C++'s memory instructions use the full register. An access beyond memory is a `Trap` here, not a precondition.
- **Signed conditions.** C's JG and JL test the sign bit and zero bit saved by `lahf`, which ignores the overflow flag. They agree with the signed comparison only when `rx - ry` does not overflow (`JitC.LahfAgrees`). For `0x80000000` against `1`, JG is taken although the left side is smaller (`JitC.LahfOverflow`). C++ restores the full flags and uses `jg`/`jl`, which are exact (`JitCpp.SignedBranches`).
- **Counters in C++.** The counter displacement is `8*k`, but the counters are 32-bit, so instruction `k` increments counter `2k`. From JE on (opcode ≥ 8), the increment lands outside the 16-entry table. ADD's increment lacks its displacement byte, so the NOP that follows becomes the displacement: `[rsi-0x70]`, 112 bytes before the table. On real hardware such a write most likely lands in a neighbouring heap allocation and the run goes on with corrupted memory; the model stops there with `JitCpp.Step`'s `Trap` (`EmitterCpp.MisplacedCounters`, `Scenarios.SumInCpp`).
- **STORE in C++** loads the value into `ecx`, which overwrites the address of the condition word held in `rcx`. A later CMP or conditional jump in the same native run is a `Trap` (`JitCpp.StoreClobbersStatus`).

## Model

| member | source | states |
|---|---|---|
| Words.SignExtend16 | simple_jit_pqp.c:91 | the 16-bit immediate as `int32_t`: its signed reading equals the 16-bit signed reading, and its low 16 bits are the field |
| Words.LE32 | simple_jit_pqp.c:98-101 | the four emitted bytes `(w >> 8k) & 0xFF` read back, least significant first, to the same word |
| Words.ToInt32 | simple_jit_pqp.c:18 | an `int32_t` register's value lies in [-2^31, 2^31) and wraps back to the stored word |
| Isa.Decode | simple_jit_pqp.c:84-91 | the decoded instruction's opcode is byte 0 and every register field is below 16, immediates below 2^16 and shifts below 32 |
| Isa.DecodeEncode | simple_jit_pqp.cpp:86-96 | decoding the four bytes assembled for any well-formed instruction gives that instruction back |
| Isa.Boot | simple_jit_pqp.cpp:31-36 | a new machine has zero registers and counters, the program at the start of memory and zeros after it |
| Isa.AddWrap | simple_jit_pqp.c:408 | ADD is the signed sum wrapped to 32 bits, and equals the exact sum when it fits |
| Isa.SubWrap | simple_jit_pqp.c:433 | SUB is the signed difference wrapped to 32 bits, and equals the exact difference when it fits |
| Isa.ShiftLeftWord | simple_jit_pqp.c:538 | SAL is the signed value times 2^n wrapped to 32 bits, and equals the exact product when it fits |
| Isa.MulWrap | simple_jit_pqp.c:538 | multiplying a word or its signed reading by the same factor gives the same 32-bit result, exact when the signed product fits |
| Isa.ShiftRightWord | simple_jit_pqp.c:561-563 | SAR is signed division by 2^n rounded toward minus infinity, and keeps the sign |
| Isa.SignedVerdict | simple_jit_pqp.cpp:218-220 | exactly one of greater, less, equal holds, and equal holds exactly when the registers are equal |
| Isa.StatusConditions | simple_jit_pqp.cpp:233-235 | after `cmp`, ZF is equality, SF≠OF is signed less-than and !ZF with SF=OF is signed greater-than |
| Isa.AluApply | simple_jit_pqp.c:403-532 | ADD and SUB wrap the sum and difference to 32 bits; AND, OR and XOR combine the 32-bit patterns (`AddWrap` and `SubWrap` give the signed reading) |
| Words.BitAnd | simple_jit_pqp.c:453-478 | `and` on the two's-complement bit patterns of the operands |
| Words.BitOr | simple_jit_pqp.c:479-505 | `or` on the two's-complement bit patterns of the operands |
| Words.BitXor | simple_jit_pqp.c:506-532 | `xor` on the two's-complement bit patterns of the operands |
| Isa.Compare | simple_jit_pqp.c:204-240 | the status `cmp` leaves: ZF holds exactly on equal operands and OF exactly when the signed difference does not fit in 32 bits |
| Isa.LoadWord | simple_jit_pqp.c:131-164 | a 32-bit little-endian read, whose bytes written back are the four bytes read |
| Isa.StoreWord | simple_jit_pqp.c:191-194 | a 32-bit store reads back as the stored value and changes no byte outside its four |
| Isa.Execute | simple_jit_pqp.c:88-580 | each data instruction's effect: its destination register gets the value the ISA defines, every other register is unchanged, memory changes only for STORE and only at its word, the condition word changes only for CMP |
| Isa.Bump | simple_jit_pqp.c:102-104 | an increment of counter `k` succeeds exactly when `k` names one of the 16 counters, and then changes that counter alone, by one modulo 2^32 |
| CodeCache.EmptySlot | simple_jit_pqp.c:43-55 | an untranslated slot is the 8-byte trampoline followed by NOPs |
| CodeCache.Overlay | simple_jit_pqp.c:85-104 | writing a body at a slot's start keeps the body's bytes and leaves the rest of the empty slot as it was |
| CodeCache.TrampolineValue | simple_jit_pqp.c:45-54 | a trampoline returns its slot's address plus the 7-byte `lea` length plus the zero displacement |
| CodeCache.TrampolineShape | simple_jit_pqp.c:591 | a trampoline's value lies in the code range and decodes as a slot reference |
| CodeCache.Translate | simple_jit_pqp.c:81-84 | the pc's slot is decoded from memory if untranslated and kept if translated; no other slot changes |
| CodeCache.ExitTo | simple_jit_pqp.c:253-260 | `mov eax, v; ret` is six bytes |
| CodeCache.Count | simple_jit_pqp.c:102-104 | the increment of counter `k` adds one modulo 2^32 to it, and changes no other counter, no register, no memory and not the status |
| CodeCache.WriteBytes | simple_jit_pqp.c:95-104 | the array afterwards holds the bytes at their offsets and its old contents everywhere else |
| CodeCache.WriteSlot | simple_jit_pqp.c:85 | writing a body at slot `s` changes only the first bytes of slot `s`; other slots and the area past the cache are unchanged |
| CodeCache.WriteTrampolines | simple_jit_pqp.c:43-55 | every slot of a NOP-filled page becomes an empty slot, and nothing past the cache changes |
| EmitterC.Target | simple_jit_pqp.c:243-244 | the `uint16_t` jump target is below 2^16 |
| EmitterC.Emit | simple_jit_pqp.c:86-585 | every body fits in a slot with a byte to spare; the body is empty exactly for an invalid opcode; every other body is at least as long as the trampoline it overwrites |
| EmitterC.CounterSite | simple_jit_pqp.c:102-104 | every valid instruction's body increments the counter its opcode names |
| EmitterC.ImmediateField | simple_jit_pqp.c:93-101 | MOV immediate stores into register `rx` the 32-bit sign extension of the field |
| EmitterC.RegisterFields | simple_jit_pqp.c:114-123 | MOV register, LOAD and the ALU bodies read register `ry` and write register `rx` |
| EmitterC.ShiftFields | simple_jit_pqp.c:543-548 | SAL and SAR shift register `rx` by the decoded amount |
| EmitterC.JumpLanding | simple_jit_pqp.c:262-271 | an in-range jump body is 8 (JMP) or 12 bytes, and its rel32 lands at the target's slot |
| EmitterC.JumpExit | simple_jit_pqp.c:251-261 | an out-of-range jump ends in `mov eax, target; ret`; in a conditional one, the rel8 skip of 6 reaches the end of the body |
| EmitterC.TargetWraps | simple_jit_pqp.c:244 | the target is pc + 4 + the signed offset modulo 2^16, and offset 0xFFF8 jumps back one instruction |
| JitC.EndTrampoline | simple_jit_pqp.c:57-64 | the end trampoline returns 256 |
| JitC.SlotImage | simple_jit_pqp.c:85 | an untranslated or invalid slot is the empty slot; a translated one starts with its whole emitted body |
| JitC.Taken | simple_jit_pqp.c:285-331 | the branch tests on the byte `lahf` saved: JG on neither SF nor ZF, JL on SF, JE on ZF (their relation to the signed verdict is `LahfAgrees`/`LahfOverflow`) |
| JitC.LahfAgrees | simple_jit_pqp.c:285-331 | when `rx - ry` does not overflow, the `lahf` tests of JG, JL and JE agree with signed greater, less and equal |
| JitC.LahfOverflow | simple_jit_pqp.c:285-288 | on `0x80000000` against `1`, the signed verdict is less while the JG test is taken and the JL test is not |
| JitC.Step | simple_jit_pqp.c:86-585 | a body that completes leaves a valid machine; a taken jump goes to an aligned in-range pc or returns a value of 256 or more; only data instructions and untaken jumps fall through |
| JitC.LoadMasked | simple_jit_pqp.c:146-153 | LOAD reads the word at the low byte of the address register; it completes exactly when that word lies inside memory, otherwise it traps |
| JitC.Call | simple_jit_pqp.c:588-590 | running native code from a slot ends with 256, a value from 256 to 2^16, or a trampoline value, and never in an unspecified state |
| JitC.HostDecode | simple_jit_pqp.c:591-604 | the decoded value is a 32-bit `temp_pc`; the loop stops only on one of 256 or more, and a raw value below 256 outside the code range continues as the pc |
| JitC.TrampolineRoundTrip | simple_jit_pqp.c:591-594 | the host decodes slot `s`'s trampoline value as pc `4s` |
| JitC.RawExit | simple_jit_pqp.c:597-602 | a returned value from 256 up to 2^32, outside the code range, stops the loop with that value |
| JitC.DecodeReturned | simple_jit_pqp.c:591-603 | every value a call can return decodes to an aligned pc below 256 or to a stop value below 2^16 |
| JitC.Visit | simple_jit_pqp.c:81-590 | one iteration translates exactly the pc's slot, and its result is resumable |
| JitC.Dispatch | simple_jit_pqp.c:79-605 | the loop keeps the engine valid, and an exit pc is a `uint16_t` |
| JitC.Iterate | simple_jit_pqp.c:588-604 | one pass of the loop body keeps the engine valid, and an exit pc is a `uint16_t` |
| JitC.DispatchContinues | simple_jit_pqp.c:591-604 | an iteration that returns a slot reference continues at that pc |
| JitC.DispatchStops | simple_jit_pqp.c:597-602 | an iteration that returns a value of 256 or more ends the loop with that value |
| JitC.DispatchFails | simple_jit_pqp.c:590 | an iteration whose native code does not return a word ends the loop with that failure |
| JitC.DispatchOutcome | simple_jit_pqp.c:599-607 | a run exits at a pc from `pos` to below 2^16, and never in an unspecified state |
| JitC.DispatchKeepsTranslations | simple_jit_pqp.c:81-83 | a translated slot is never translated again |
| JitC.InvalidNeverExits | simple_jit_pqp.c:582-594 | from an invalid instruction the loop never exits, whatever fuel it is given |
| JitC.CallInvalid | simple_jit_pqp.c:582-590 | calling a slot translated from an invalid opcode returns that slot's own trampoline value and changes nothing |
| JitC.OverlayKeepsPage | simple_jit_pqp.c:85 | writing a slot's image into the page keeps the page in step with the slot table |
| JitC.EmitKeepsPage | simple_jit_pqp.c:85-104 | emitting an instruction into an untranslated slot keeps the page in step with the table once that slot is marked translated |
| JitC.SlotOfPc | simple_jit_pqp.c:85 | `index = pc * 4` is the start of slot `pc / 4`, and the body written there is that slot's image |
| JitC.NewPage | simple_jit_pqp.c:39-64 | a fresh page holds empty slots, the end trampoline, NOPs and a final `ret` |
| JitC.JitMachine.constructor | simple_jit_pqp.c:31-64 | a new engine has the booted machine, no translated slot, and a page that matches |
| JitC.JitMachine.EnsureTranslated | simple_jit_pqp.c:81-586 | translating pc marks only its table entry, writes only its slot and leaves the machine unchanged |
| JitC.JitMachine.VisitSlot | simple_jit_pqp.c:81-590 | the in-place translate-and-call does what `Visit` specifies |
| JitC.JitMachine.Advance | simple_jit_pqp.c:588-604 | one pass of the loop body either ends the run as `Dispatch` does, or continues at an aligned pc with one unit of fuel less and the same final outcome |
| JitC.JitMachine.Run | simple_jit_pqp.c:75-607 | the imperative loop ends with the outcome and the state `Dispatch` specifies |
| EmitterCpp.RestoreFlags | simple_jit_pqp.cpp:296-303 | the counter increment and `mov eax,[rcx]; push rax; popf` take seven bytes |
| EmitterCpp.Emit | simple_jit_pqp.cpp:91-615 | every body fits in a slot with a byte to spare, and the body is empty exactly for an invalid opcode |
| EmitterCpp.CounterSite | simple_jit_pqp.cpp:109-111 | every valid instruction's body increments the counter at offset `4 * CounterIndex` |
| EmitterCpp.MisplacedCounters | simple_jit_pqp.cpp:243-246 | apart from ADD, instruction `k` increments counter `2k`; the counter is in the table exactly for opcodes below 8; only MOV immediate increments its own counter |
| EmitterCpp.ImmediateField | simple_jit_pqp.cpp:100-108 | MOV immediate stores into register `rx` the 32-bit sign extension of the field |
| EmitterCpp.RegisterFields | simple_jit_pqp.cpp:122-131 | each body reads and writes the registers its instruction names, at the positions each encoding uses |
| EmitterCpp.StaleReturn | simple_jit_pqp.cpp:572-581 | SAL and SAR bodies are seven bytes, so the trampoline's `ret` stays in place right after them |
| EmitterCpp.JumpLanding | simple_jit_pqp.cpp:277-282 | an in-range jump body is 8 (JMP) or 13 bytes, and its rel32 lands one byte before the target's slot |
| EmitterCpp.JumpExit | simple_jit_pqp.cpp:263-273 | an out-of-range jump ends in `mov eax, target; ret`; JG and JL skip it with a rel8 of 6, while JE has no skip |
| EmitterCpp.Target | simple_jit_pqp.cpp:253-254 | the `uint32_t` jump target, pc + 4 + the sign-extended offset wrapped to 32 bits (characterised by `TargetWraps`) |
| EmitterCpp.CounterIndex | simple_jit_pqp.cpp:93-615 | the counter each body's `inc` reaches: `2k` for opcode `k`, and -28 for ADD (proved by `CounterSite` and `MisplacedCounters`) |
| EmitterCpp.TargetWraps | simple_jit_pqp.cpp:253-254 | the `uint32_t` target is pc + 4 + the signed offset, or at least 2^32 - 0x8000 when that sum is negative; offset 0xFFF8 jumps back one instruction |
| JitCpp.Sled | simple_jit_pqp.cpp:44-45 | the page past the cache is NOPs up to a final `ret` |
| JitCpp.SlotImage | simple_jit_pqp.cpp:87 | a slot's last byte is always a NOP, an untranslated or invalid slot is the empty slot, and a translated one starts with its whole emitted body |
| JitCpp.Taken | simple_jit_pqp.cpp:300-303 | `jg`, `jl` and `je` as the processor tests the restored flags (their relation to the signed verdict is `SignedBranches`) |
| JitCpp.SignedBranches | simple_jit_pqp.cpp:300-303 | with the restored flags, JG, JL and JE are taken exactly on signed greater, less and equal |
| JitCpp.Step | simple_jit_pqp.cpp:91-609 | a body that completes leaves a valid machine, and a valid one increments a counter inside the table; a jump that completes goes to an aligned pc of at least 4 or returns a word |
| JitCpp.StepCounts | simple_jit_pqp.cpp:109-111 | a completed body changes exactly one counter, the one at `CounterIndex`, by one |
| JitCpp.Branch | simple_jit_pqp.cpp:251-423 | a jump falls through exactly when its condition fails; when taken, it goes to its target slot or returns a target of 256 or more, with the machine unchanged |
| JitCpp.StoreClobbersStatus | simple_jit_pqp.cpp:195-202 | after a STORE, a CMP or a conditional jump in the same native run traps |
| JitCpp.Call | simple_jit_pqp.cpp:619-621 | running native code ends with a 32-bit value or a trampoline value |
| JitCpp.HostDecode | simple_jit_pqp.cpp:623-632 | the decoded pc is a `uint16_t` |
| JitCpp.TrampolineRoundTrip | simple_jit_pqp.cpp:623-627 | the host decodes slot `s`'s trampoline value as pc `4s` |
| JitCpp.RawExit | simple_jit_pqp.cpp:628-632 | any 32-bit value outside the code range stops the loop with its low 16 bits |
| JitCpp.DecodeReturned | simple_jit_pqp.cpp:623-632 | every value a call can return decodes to an aligned pc below 256 or a stop |
| JitCpp.CallSite | simple_jit_pqp.cpp:611-619 | the call goes past the slots exactly when the pc is translated now and its opcode is invalid |
| JitCpp.Visit | simple_jit_pqp.cpp:84-621 | one iteration translates exactly the pc's slot, and a returned word is resumable |
| JitCpp.Dispatch | simple_jit_pqp.cpp:81-633 | the loop keeps the engine valid, and an exit pc is a `uint16_t` |
| JitCpp.Iterate | simple_jit_pqp.cpp:619-632 | one pass of the loop body keeps the engine valid, and an exit pc is a `uint16_t` |
| JitCpp.DispatchContinues | simple_jit_pqp.cpp:623-627 | an iteration that returns a slot reference continues at that pc |
| JitCpp.DispatchStops | simple_jit_pqp.cpp:628-632 | an iteration that returns any other word ends the loop with its low 16 bits |
| JitCpp.DispatchFails | simple_jit_pqp.cpp:621 | an iteration whose native code does not return a word ends the loop with that failure |
| JitCpp.DispatchKeepsTranslations | simple_jit_pqp.cpp:84-89 | a translated slot is never translated again |
| JitCpp.InvalidUndetermined | simple_jit_pqp.cpp:611-621 | reaching an invalid opcode for the first time ends the run in an undetermined state |
| JitCpp.JumpOutExits | simple_jit_pqp.cpp:263-273 | a JMP out of memory ends the run at its target modulo 2^16 |
| JitCpp.OverlayKeepsPage | simple_jit_pqp.cpp:87 | writing a slot's image into the page keeps the page in step with the slot table |
| JitCpp.EmitKeepsPage | simple_jit_pqp.cpp:87-112 | emitting an instruction into an untranslated slot keeps the page in step with the table once that slot is marked translated |
| JitCpp.SlotOfPc | simple_jit_pqp.cpp:87 | `index = pc * 4` is the start of slot `pc / 4`, and the body written there is that slot's image |
| JitCpp.LandingPad | simple_jit_pqp.cpp:277 | the byte before every slot other than the first is a NOP, so a jump landing there runs into the target's slot |
| JitCpp.NewPage | simple_jit_pqp.cpp:38-57 | a fresh page holds empty slots, then the NOP sled and its `ret` |
| JitCpp.JitMachine.constructor | simple_jit_pqp.cpp:31-58 | a new engine has the booted machine, every table entry set, no translated slot, and a page that matches |
| JitCpp.JitMachine.EnsureTranslated | simple_jit_pqp.cpp:84-616 | translating pc clears only its table entry, writes only its slot, leaves the machine unchanged, and sends an invalid opcode's call to pc 256 |
| JitCpp.JitMachine.VisitSlot | simple_jit_pqp.cpp:84-621 | the in-place translate-and-call does what `Visit` specifies |
| JitCpp.JitMachine.Advance | simple_jit_pqp.cpp:619-632 | one pass of the loop body either ends the run as `Dispatch` does, or continues at an aligned pc with one unit of fuel less and the same final outcome |
| JitCpp.JitMachine.Run | simple_jit_pqp.cpp:81-635 | the imperative loop ends with the outcome and the state `Dispatch` specifies |
| Scenarios.SumInC | simple_jit_pqp.c:403-426 | on MOV R1,5; MOV R2,10; ADD R1,R2, the C engine exits at pc 12 with R1 = 15, R2 = 10, counter 0 at 2 and counter 9 at 1 |
| Scenarios.SumInCpp | simple_jit_pqp.cpp:445-447 | on the same program, the C++ engine runs the two moves and then reaches ADD's counter write 112 bytes before the table, outside the modelled state (`Crash`) |

## Left out

- Loading the program: file reading and hex scanning are not modelled. The program is a byte sequence of at most 256 bytes. The C loader has no bound, and an input longer than memory would overflow it.
- Trace and summary output: the `fprintf` lines are not modelled. This includes their reads of `vm.memory[address + k]` beyond memory, and the signed-overflow arithmetic in their temporaries.
- Page management: `mmap`, `munmap` and `sysconf` are not modelled. The C page size is a parameter larger than 1030; the C++ page is 4096 bytes. `code_base` is a parameter of at least 2^32, so that no 32-bit value returned by native code is mistaken for a cache address.
- x86 execution: native code is replaced by `Call` and `Step`. `Step` is the meaning of each emitted body, and the emitter lemmas tie it to the emitted bytes. Full RFLAGS, and the flags image stored in the condition word, are not modelled; the model keeps SF, ZF and OF.
- The C++ `compare[]` array: it is only written for the trace, so it is not modelled.
- Undefined behaviour: a memory access outside the 256 bytes, a counter write outside the table, a compare through a clobbered `rcx`, and a misaligned or zero jump target all become `Trap`/`Crash`. The model does not say what the hardware would then do.
- JitCpp.Call: `rax` at entry to native code is unknown, so a run into the NOP sled with no value put there by the body is `Unspecified`. SAL and SAR trap at their counter before the stale `ret` after them could return.
- JitC.Dispatch and JitCpp.Dispatch carry a fuel bound. `OutOfFuel` stands for "not finished within this many iterations", so a loop that never ends, like the C one on an invalid opcode, is only shown for every bound.
