# Avatar: verified models

Avatar runs firmware partly in an emulator and partly on the device. Five of its parts are modelled here.

- **The Thumb-to-IR translator** (`Words`, `Ir`, `Arm`, `Emitters`, `Cfg`, `Translator`, `Simulation`, `Conditions`,
  `Manual`, `Instrumentation`, `Generate`). A worklist over program counters builds a control-flow graph: one block
  per address with a phi node for each of 20 value ids, and exit blocks for addresses outside the given ranges. The
  main result is a forward simulation: the graph runs in lock step with a machine that executes one instruction at a
  time, and the instrumentation pass preserves that.
- **The link to the stub on the device** (`Checksum`, `Framing`, `WireDamage`, `Messages`, `MessageBytes`,
  `StubProtocol`). CRC-8, byte stuffing, what becomes of frames that are damaged on the wire, the message table, and
  the threads above them.
- **The GDB/MI parser** (`MiParser`), a recursive-descent parser that inverts the printer of the MI syntax.
- **The GDB remote-serial deframer** (`GdbDeframer`).
- **The shadow memory** of the memory range plugin (`MemoryRanges`).

How to read it. Classes carry the fields that the program updates, and their methods are proved against functions on
values; the lemmas are about those functions. Machine words are integers with explicit wrap-around, bitwise operations
are defined bit by bit on them, and the checksum is computed on 8-bit vectors. In the translator, `Inv` in `Cfg.dfy`
is what every step of the worklist keeps, `Closed` is `Inv` with an empty queue, and `Implements` in `Emitters.dfy`
says that a block does what an instruction does. The log of a run holds the marked accesses, or the handler calls that
replace them; `Accesses` in `Arm.dfy` says which accesses of an instruction are marked. A program is what decodes at
each address and what code memory holds; both are parameters, as are the processor structure and the memory a run
starts from. The functions that methods and lemmas share are pinned down from outside, in numbers, bits and bytes:
`Manual` does it for the instructions and the IR, `MessageBytes` for the message table, and single lemmas in the other
modules.

Where the emitted code differs from the ARM manual (the carry of ADD, LSL and LSR, the slot order of PUSH), the
machine follows the emitted code, and `Conditions` says exactly when the two agree. In the MI parser, a failing
`expect_char` or `check_limit` builds its exception from attributes that the cursor does not have, so another exception
escapes; the model keeps one error value for that. The documentation of `parse_tuple` promises "{}", of which the
code reads one brace; the model follows the code.

## Model

| member | source | states |
|---|---|---|
| `Emitters.EveryIdOnce` | binary_translator/src/ReverseTranslationConfiguration.cpp:69-97 | The list of value ids names every id of the processor state exactly once. |
| `Translator.Ranges.IsInRange` | binary_translator/include/lldc/InstructionDecoder.h:24-34 | True exactly for the addresses that some half-open range contains. |
| `Cfg.Addresses` | binary_translator/include/lldc/InstructionDecoder.h:15-34 | The addresses of a range list form a finite set: the bound that makes the worklist end. |
| `Translator.TranslationUnitCache.Create` | binary_translator/src/InstructionTranslationUnitCache.cpp:43-73 | The unit of a new address: an empty phi node for each of the 20 ids, every id bound to its own phi, queued last; nothing else changes. |
| `Translator.TranslationUnitCache.AddIncoming` | binary_translator/src/InstructionTranslationUnitCache.cpp:12-22 | Each phi node of the unit gains exactly one entry, the predecessor's binding of that id. |
| `Translator.TranslationUnitCache.FindCreate` | binary_translator/src/InstructionTranslationUnitCache.cpp:96-121 | Existing unit or new one, one edge recorded, and the predecessor ended with a branch exactly when asked to be. |
| `Translator.TranslationUnitCache.GetNextUnfinished` | binary_translator/src/InstructionTranslationUnitCache.cpp:80-85 | The queue is first in, first out. |
| `Cfg.FindCreateKeeps` | binary_translator/src/InstructionTranslationUnitCache.cpp:96-121 | find_create keeps the worklist invariant: one unit per address, queued once until begun; all 20 phi nodes present; each phi entry is its predecessor's final binding; entries per predecessor equal edges per predecessor. |
| `Cfg.BeginKeeps` | binary_translator/src/InstructionDecoder.cpp:341-342 | Taking the next unit from the queue keeps that invariant. |
| `Cfg.UnitKeeps` | binary_translator/src/InstructionDecoder.cpp:103-113 | A translated instruction with its edges and its terminator keeps the invariant, for both kinds of terminator and also when the two targets coincide or are the unit itself. |
| `Cfg.ExitKeeps` | binary_translator/src/InstructionDecoder.cpp:303-330 | An exit block keeps the invariant. |
| `Cfg.DroppedKeeps` | binary_translator/src/InstructionDecoder.cpp:94-98 | A potentially invalid encoding, which returns early and leaves its block empty, keeps the invariant. |
| `Cfg.WithEntryKeeps` | binary_translator/src/InstructionDecoder.cpp:255-301 | The invariant holds once the entry block has been generated. |
| `Cfg.PhisAtEnd` | binary_translator/src/InstructionTranslationUnitCache.cpp:12-22 | At the end, over the terminators themselves: a phi node has as many entries from a predecessor as that predecessor has edges to the unit, self-loops and coinciding targets included, and only existing blocks occur. |
| `Cfg.TerminatorsAtEnd` | binary_translator/src/InstructionDecoder.cpp:94-98 | At the end every block has exactly one terminator, except that a block dropped for a potentially invalid encoding has none. |
| `Translator.BinaryTranslator.TranslateSingleInstruction` | binary_translator/src/InstructionDecoder.cpp:63-113 | Ends normally exactly for a translatable or a potentially invalid encoding, with an unknown-opcode exception exactly for an unknown opcode; normally, the invariant holds again, one more address is begun and at most two units are new. |
| `Translator.BinaryTranslator.TranslateNext` | binary_translator/src/InstructionDecoder.cpp:341-350 | One round of the worklist: outside the ranges it adds no unit; inside it begins an address for the first time and adds at most two; an exception is that of the address taken. |
| `Translator.BinaryTranslator.Translate` | binary_translator/src/InstructionDecoder.cpp:332-368 | The worklist ends for every program and all ranges, with an exception only if some address in the ranges calls for that exception; otherwise the invariant holds with an empty queue and at most 2N+1 units exist for N addresses in the ranges. |
| `Emitters.UnitBuilder.TranslateCmp` | binary_translator/src/ArmReverseTranslators.cpp:140-186 | The code appended for CMP gives the value ids the flags of the manual's subtraction, and touches no register and no memory. |
| `Emitters.UnitBuilder.TranslateSub` | binary_translator/src/ArmReverseTranslators.cpp:600-627 | Result and flags of SUB, also when the destination is an operand. |
| `Emitters.UnitBuilder.TranslateAdd` | binary_translator/src/ArmReverseTranslators.cpp:290-314 | Result and flags of ADD with the carry as emitted, also when the destination is an operand. |
| `Emitters.UnitBuilder.SetAdditionFlags` | binary_translator/src/ArmReverseTranslators.cpp:806-832 | N, Z, V of an addition as in the manual, C as emitted. |
| `Emitters.UnitBuilder.TranslateMov` | binary_translator/src/ArmReverseTranslators.cpp:316-329 | Result, N and Z of MOV. |
| `Emitters.UnitBuilder.TranslateLogical` | binary_translator/src/ArmReverseTranslators.cpp:386-418 | AND, ORR and BIC compute each of the 32 bits of the destination from the bits of the operands, with N and Z of the result. |
| `Emitters.UnitBuilder.TranslateShift` | binary_translator/src/ArmReverseTranslators.cpp:365-384 | Result, N and Z of LSL and LSR, C as emitted, with LSR by 0 standing for 32. |
| `Emitters.UnitBuilder.AppendShift` | binary_translator/src/ArmReverseTranslators.cpp:911-940 | Result and emitted carry of the three kinds of shift. |
| `Emitters.UnitBuilder.TranslateLoad` | binary_translator/src/ArmReverseTranslators.cpp:644-661 | LDR and LDRH load from the scaled address, mark that load with its address, width and value for the handlers, and change nothing else. |
| `Emitters.UnitBuilder.AppendLoad` | binary_translator/src/ArmReverseTranslators.cpp:650-661 | A load leaves memory alone and is marked exactly once, with its address, width and the value it finds. |
| `Emitters.UnitBuilder.TranslateStore` | binary_translator/src/ArmReverseTranslators.cpp:486-501 | STR and STRH write the register's low bytes to the scaled address, mark that store with its address, width and value, and change no value id. |
| `Emitters.UnitBuilder.AppendIndexedStore` | binary_translator/src/ArmReverseTranslators.cpp:486-501 | A store writes the low bytes at the scaled address and is marked exactly once, with that address, the width and the narrowed value. |
| `Emitters.UnitBuilder.TranslateLoadLiteral` | binary_translator/src/ArmReverseTranslators.cpp:104-119 | A PC-relative load becomes the word that code memory holds and accesses no memory; its register is right if and only if memory still holds that word. |
| `Emitters.UnitBuilder.TranslatePush` | binary_translator/src/ArmReverseTranslators.cpp:65-102 | PUSH stores the registers one below the other, moves the stack pointer by four for each, and marks none of its stores. |
| `Emitters.UnitBuilder.GetCondition` | binary_translator/src/ArmReverseTranslators.cpp:188-249 | For all 14 conditions the emitted flag is the condition of section A8.3 of ARM DDI 0406C on the unit's flags. |
| `Emitters.UnitBuilder.TranslateCondBranch` | binary_translator/src/ArmReverseTranslators.cpp:251-265 | The branch goes to the target exactly when the condition holds and to the next instruction otherwise; no value changes. |
| `Emitters.UnitBuilder.Translate` | binary_translator/src/ReverseTranslationConfiguration.cpp:48-55 | Every instruction with a translator: the code does to the value ids and the memory what the instruction does to the machine, marks the instruction's accesses and no others, and leaves for the machine's next address; only a branch on AL throws. |
| `Emitters.UnitBuilder.GenEntry` | binary_translator/src/InstructionDecoder.cpp:282-296 | After the entry code every value id holds what the processor structure says, flags unpacked from CPSR, and nothing has been changed. |
| `Emitters.UnitBuilder.DecodeCpsr` | binary_translator/src/InstructionDecoder.cpp:200-218 | The four flag ids hold bits 30, 31, 29 and 28 of CPSR; the other ids are kept. |
| `Emitters.UnitBuilder.EncodeCpsr` | binary_translator/src/InstructionDecoder.cpp:220-247 | CPSR becomes its low 28 bits with the current flags above them. |
| `Emitters.UnitBuilder.GenExit` | binary_translator/src/InstructionDecoder.cpp:303-330 | The exit code stores all 16 registers, CPSR with the flags packed in, leaves memory alone and marks nothing. |
| `Arm.PackUnpack` | binary_translator/src/InstructionDecoder.cpp:200-247 | Encoding the flags after decoding them gives back the same CPSR, for every word. |
| `Arm.UnpackPack` | binary_translator/src/InstructionDecoder.cpp:200-247 | Decoding after encoding gives back any four flags, and bits 0 to 27 are kept. |
| `Arm.MaskedOr` | binary_translator/src/InstructionDecoder.cpp:246 | Masking and or-ing, as the exit code does it, is packing. |
| `Words.AndBits` | binary_translator/src/ArmReverseTranslators.cpp:892-908 | The modelled bitwise and is the and of each pair of bits. |
| `Words.OrBits` | binary_translator/src/ArmReverseTranslators.cpp:386-401 | The modelled bitwise or is the or of each pair of bits. |
| `Words.NotBits` | binary_translator/src/ArmReverseTranslators.cpp:403-418 | The modelled complement flips each of the 32 bits. |
| `Simulation.EnterMatches` | binary_translator/src/InstructionTranslationUnitCache.cpp:12-22 | Taking any edge sets all phi nodes of the target to the values at the end of the predecessor. |
| `Simulation.UnitStep` | binary_translator/src/InstructionDecoder.cpp:103-113 | Running one unit is one step of the instruction-at-a-time machine: same next address, registers, flags, memory, and the marked accesses of that instruction. |
| `Simulation.DroppedStep` | binary_translator/src/InstructionDecoder.cpp:94-98 | Running into a dropped block is stuck, for lack of a terminator. |
| `Simulation.LockStep` | binary_translator/src/InstructionDecoder.cpp:332-352 | For every run length: after the entry block and n units the function is at the unit of the machine's n-th address with the machine's registers, flags and memory in its phi nodes, and has made the marked accesses of those n instructions in order. |
| `Simulation.ReturnsAtExit` | binary_translator/src/InstructionDecoder.cpp:344-347 | The function returns exactly when the machine leaves the ranges, with its memory, all 16 register slots, and the marked accesses of the whole run. |
| `Simulation.TraceIsComplete` | binary_translator/src/ArmReverseTranslators.cpp:79-119 | The marked accesses of a run are all of its data accesses if and only if it executes no PUSH of a register and no PC-relative load; otherwise there are fewer. |
| `Simulation.ExitRegisters` | binary_translator/src/InstructionDecoder.cpp:303-330 | What a caller finds afterwards: each register, the flags in CPSR, and bits 0 to 27 of CPSR as on entry, along every path. |
| `Conditions.ComparisonFlags` | binary_translator/src/ArmReverseTranslators.cpp:140-249 | After CMP or SUB each of the 14 conditions holds exactly if what it says of the operands does: ten comparisons, signed or unsigned, the sign of the difference, and signed overflow. |
| `Conditions.SignedOverflow` | binary_translator/src/ArmReverseTranslators.cpp:151-159 | V is exactly signed overflow of the subtraction; without it the result is the signed difference. |
| `Conditions.CompareAndBranch` | binary_translator/src/ArmReverseTranslators.cpp:140-265 | In the emitted function a CMP followed by a conditional branch on any condition ends at the unit that the operands select. |
| `Conditions.AdditionCarry` | binary_translator/src/ArmReverseTranslators.cpp:304-306 | The emitted carry of ADD is the carry out of bit 31 if and only if the second operand is not larger or the sum overflows. |
| `Conditions.AdditionCarryTooOften` | binary_translator/src/ArmReverseTranslators.cpp:304-306 | 0 + 1 is a case in which it is not. |
| `Conditions.LeftShiftCarry` | binary_translator/src/ArmReverseTranslators.cpp:376-378 | The emitted carry of LSL is the bit shifted out if and only if two given bits of the operand agree. |
| `Conditions.LeftShiftCarryLost` | binary_translator/src/ArmReverseTranslators.cpp:376-378 | Shifting 0x80000000 left by 1 is a case in which they do not. |
| `Conditions.RightShiftCarry` | binary_translator/src/ArmReverseTranslators.cpp:931-933 | The same for LSR, and always for a shift by 32. |
| `Conditions.RightShiftCarryLost` | binary_translator/src/ArmReverseTranslators.cpp:931-933 | Shifting 1 right by 1 is a case in which they do not. |
| `Conditions.PushSlots` | binary_translator/src/ArmReverseTranslators.cpp:79-97 | Where each pushed register ends up: the first one at the highest address, none overwritten by a later one. |
| `Conditions.PushOrder` | binary_translator/src/ArmReverseTranslators.cpp:79-97 | The stack is as the manual says if and only if the pushed values read the same in both directions. |
| `Conditions.PushSwapped` | binary_translator/src/ArmReverseTranslators.cpp:79-97 | Of two registers with different values each is found where the manual expects the other. |
| `Conditions.PushFrame` | binary_translator/src/ArmReverseTranslators.cpp:79-97 | PUSH changes no byte outside the pushed words. |
| `Manual.MoveMeaning` | binary_translator/src/ArmReverseTranslators.cpp:316-329 | MOV in numbers: the immediate, N and Z, everything else kept. |
| `Manual.LogicalMeaning` | binary_translator/src/ArmReverseTranslators.cpp:386-418 | AND, ORR and BIC bit by bit, N and Z of the result, everything else kept. |
| `Manual.AdditionMeaning` | binary_translator/src/ArmReverseTranslators.cpp:290-314 | ADD in numbers: the sum modulo 2^32, signed overflow, the carry as emitted, every other register kept. |
| `Manual.SubtractionMeaning` | binary_translator/src/ArmReverseTranslators.cpp:600-627 | SUB and CMP in numbers: the difference modulo 2^32, borrow and signed overflow; CMP changes no register. |
| `Manual.ShiftMeaning` | binary_translator/src/ArmReverseTranslators.cpp:365-384 | LSL and LSR in numbers, LSR by 32 included, with the carry as emitted. |
| `Manual.LoadMeaning` | binary_translator/src/ArmReverseTranslators.cpp:121-138 | LDR and LDRH read their bytes least significant first from the scaled address, and are marked once with what they read. |
| `Manual.StoreMeaning` | binary_translator/src/ArmReverseTranslators.cpp:347-363 | STR and STRH set exactly the bytes of the access, least significant first, and are marked once with the value written. |
| `Manual.LiteralMeaning` | binary_translator/src/ArmReverseTranslators.cpp:104-119 | A PC-relative load reads the word at the offset from the instruction address plus 4, rounded down to a multiple of 4. |
| `Manual.PushMeaning` | binary_translator/src/ArmReverseTranslators.cpp:65-102 | PUSH moves the stack pointer by four for each register, changes no other register and no flag, and marks nothing. |
| `Manual.BranchMeaning` | binary_translator/src/ArmReverseTranslators.cpp:251-288 | Branch offsets count from the instruction address plus 4, modulo 2^64; everything else goes on behind the instruction. |
| `Manual.ConditionMeaning` | binary_translator/src/ArmReverseTranslators.cpp:188-249 | Each condition in terms of the four flags, in opposite pairs. |
| `Manual.EmittedState` | binary_translator/src/InstructionDecoder.cpp:103-113 | The emitted code of a unit leaves every register, every flag, memory, marks and next address as the instruction does. |
| `Manual.EmittedLogical` | binary_translator/src/ArmReverseTranslators.cpp:386-418 | The code emitted for AND, ORR and BIC computes each bit of the destination from the bits of the operands. |
| `Manual.WordOfBits` | binary_translator/src/InstructionDecoder.cpp:200-218 | A word is the sum of the powers of two whose bit is set: what testing a bit means. |
| `Manual.ArithmeticMeaning` | binary_translator/src/ArmReverseTranslators.cpp:290-314 | What the emitted additions, subtractions and shifts compute on 32 bits. |
| `Manual.BitwiseMeaning` | binary_translator/src/ArmReverseTranslators.cpp:892-908 | What the emitted and, or and complement compute, bit by bit. |
| `Manual.ComparisonMeaning` | binary_translator/src/ArmReverseTranslators.cpp:188-249 | What the emitted comparisons and flag operations decide. |
| `Manual.ConversionMeaning` | binary_translator/src/ArmReverseTranslators.cpp:644-661 | Pointer arithmetic scales by the size pointed to; casts keep the low bytes. |
| `Manual.AccessMeaning` | binary_translator/src/InstrumentMemoryAccessPass.cpp:24-60 | A marked access and a call of its handler have the same effect, and each is logged once with address, width and value. |
| `Ir.LoadedBytes` | binary_translator/src/ArmReverseTranslators.cpp:644-661 | Loads are little endian. |
| `Ir.StoredBytes` | binary_translator/src/ArmReverseTranslators.cpp:486-501 | Stores are little endian and change no byte outside the access. |
| `Manual.TerminatorMeaning` | binary_translator/src/ArmReverseTranslators.cpp:251-265 | A conditional branch takes its first target exactly if its operand is true. |
| `Manual.StepCondition` | binary_translator/src/InstructionDecoder.cpp:344-350 | When the simulation theorems apply to a step: in some half-open range, no potentially invalid encoding, and no literal changed since translation. |
| `Manual.RunReplays` | binary_translator/src/ArmReverseTranslators.cpp:79-119 | Replaying the stores among the data accesses of a run, those of PUSH included, gives the memory at its end. |
| `Manual.EntryMeaning` | binary_translator/src/InstructionDecoder.cpp:282-296 | The machine on entry: every register from its slot, the flags from bits 31, 30, 29 and 28 of CPSR. |
| `Manual.ExitMeaning` | binary_translator/src/InstructionDecoder.cpp:303-330 | The processor structure on return: every register in its slot, the flags in those bits of CPSR, its low 28 bits kept. |
| `Manual.NothingRun` | binary_translator/src/InstructionDecoder.cpp:282-330 | Entry followed by exit gives back every slot as it was. |
| `Instrumentation.BasicBlock.RunOnBasicBlock` | binary_translator/src/InstrumentMemoryAccessPass.cpp:18-101 | Rewriting a block where it stands gives the expansion of the old block; it fails exactly on a marked access of unknown width. |
| `Instrumentation.NoMarksLeft` | binary_translator/src/InstrumentMemoryAccessPass.cpp:25-97 | No marked load or store is left. |
| `Instrumentation.WidthsAndMarks` | binary_translator/src/InstrumentMemoryAccessPass.cpp:24-48 | The pass accepts marked loads and stores of 1, 2 and 4 bytes, and code without marks has neither. |
| `Instrumentation.UnmarkedUnchanged` | binary_translator/src/InstrumentMemoryAccessPass.cpp:25-26 | Code without marked accesses is left as it is. |
| `Instrumentation.SecondRunChangesNothing` | binary_translator/src/InstrumentMemoryAccessPass.cpp:18-101 | A second run changes nothing. |
| `Instrumentation.LoadExpands` | binary_translator/src/InstrumentMemoryAccessPass.cpp:28-61 | A marked load and its replacement give the same value; the read handler is called for the address, width and value of the load. |
| `Instrumentation.StoreExpands` | binary_translator/src/InstrumentMemoryAccessPass.cpp:62-97 | The same for a marked store and the write handler. |
| `Instrumentation.BlockExpands` | binary_translator/src/InstrumentMemoryAccessPass.cpp:18-101 | A rewritten block computes the same values and leaves the same memory, and the handler calls are the marked accesses in order. |
| `Instrumentation.SameRun` | binary_translator/src/InstructionDecoder.cpp:465-472 | Over any number of blocks, with phi nodes and branches, the rewritten function stays in step with the original. |
| `Instrumentation.TranslatedCode` | binary_translator/src/InstructionDecoder.cpp:465-472 | Code that the translator emits never fails the pass and contains no handler call of its own. |
| `Instrumentation.InstrumentedReturns` | binary_translator/src/InstructionDecoder.cpp:465-472 | The instrumented function returns exactly when the machine leaves the ranges, with its memory and registers, and the handlers have been called with exactly the marked accesses of the machine's steps, in order. |
| `Generate.TranslateProgram` | binary_translator/src/c_interface.cpp:102-120 | From machine code to the function: if everything in the ranges can be translated, and whenever translation ends normally, the function simulates the program from every processor structure and for every run length, instrumented or not, its log being the marked accesses of the machine's steps; instrumented, it has no marked access left, and otherwise no handler call. |
| `Checksum.Crc8.AddBytes` | avatar/util/checksum.py:19-23 | The register after more bytes is the fold of table lookups from where it was: adding is incremental. |
| `Checksum.TableByte` | avatar/util/checksum.py:8-22 | For every register and byte the two tables do what eight steps of the shift register for x^8+x^5+x^4+1 do. |
| `Checksum.TablesArePolynomial` | avatar/util/checksum.py:3-23 | The table-driven checksum is the bit-serial one on every byte string. |
| `Checksum.CheckValue` | avatar/util/checksum.py:3-23 | The checksum of the text 123456789 is A1, the published check value. |
| `Checksum.CrcAppend` | avatar/util/checksum.py:19-23 | The checksum of a concatenation continues from the checksum of its first part. |
| `Checksum.CrcLinear` | avatar/util/checksum.py:19-23 | It is linear: xor of equally long strings gives xor of checksums. |
| `Checksum.BurstChangesCrc` | avatar/util/checksum.py:19-23 | A difference confined to 8 consecutive bits, across a byte boundary or not, has a checksum other than 0. |
| `Checksum.BurstRejected` | avatar/interfaces/avatar_stub/avatar_protocol_lowlevel.py:80-89 | A body with its checksum is accepted; with bits changed within any 8 consecutive ones, checksum included, it is not. |
| `Checksum.OddRejected` | avatar/interfaces/avatar_stub/avatar_protocol_lowlevel.py:80-89 | Nor is one in which an odd number of bits was changed, wherever they are. |
| `Framing.SendMessage` | avatar/interfaces/avatar_stub/avatar_protocol_lowlevel.py:66-77 | The bytes sent: the escaped message, the escaped checksum, the end marker. |
| `Framing.EscapeIsPerByte` | avatar/interfaces/avatar_stub/avatar_protocol_lowlevel.py:71-75 | The two replacements one after the other are a single substitution per byte. |
| `Framing.EscapeTable` | avatar/interfaces/avatar_stub/avatar_protocol_lowlevel.py:71-75 | 55 and AA become AA 01 and AA 02, and every other byte stays as it is. |
| `Framing.FeedPair` | avatar/interfaces/avatar_stub/avatar_protocol_lowlevel.py:52-64 | The receiver reads AA 01 as 55 and AA before anything else as AA. |
| `Framing.MarkerOnlyAtEnd` | avatar/interfaces/avatar_stub/avatar_protocol_lowlevel.py:71-76 | In a frame the end marker is the last byte and no other. |
| `Framing.Receiver.ParseMessage` | avatar/interfaces/avatar_stub/avatar_protocol_lowlevel.py:80-89 | Accepts a body exactly if it is not empty and its last byte is the checksum of the rest. |
| `Framing.Receiver.Run` | avatar/interfaces/avatar_stub/avatar_protocol_lowlevel.py:37-64 | The receiving loop, from any state and for any bytes, is the fold of the byte machine. |
| `Framing.FrameRoundTrip` | avatar/interfaces/avatar_stub/avatar_protocol_lowlevel.py:37-77 | One frame, received afresh, yields its payload with checksum and leaves the receiver fresh. |
| `Framing.StreamRoundTrip` | avatar/interfaces/avatar_stub/avatar_protocol_lowlevel.py:37-77 | Any sequence of payloads arrives whole, once each and in order. |
| `Framing.MarkerResets` | avatar/interfaces/avatar_stub/avatar_protocol_lowlevel.py:45-57 | After any bytes an end marker brings the receiver to its initial state if and only if the run of 0xAA in front of it has even length. |
| `Framing.Resynchronised` | avatar/interfaces/avatar_stub/avatar_protocol_lowlevel.py:37-64 | After any bytes and such a marker every following frame is decoded as if fresh. |
| `Framing.TwoMarkersReset` | avatar/interfaces/avatar_stub/avatar_protocol_lowlevel.py:45-64 | Two end markers in a row do it from every state. |
| `Framing.DamagedBodyDropped` | avatar/interfaces/avatar_stub/avatar_protocol_lowlevel.py:84-89 | A body changed within 8 consecutive bits before it is escaped is dropped and harms nothing after it. |
| `WireDamage.StaysInStep` | avatar/interfaces/avatar_stub/avatar_protocol_lowlevel.py:45-64 | Whatever bits of a frame are changed on the wire, if no 0x55 and no 0xAA appears or disappears, the receiver is fresh behind the frame and has read a body of the same length. |
| `WireDamage.WireBurst` | avatar/interfaces/avatar_stub/avatar_protocol_lowlevel.py:45-89 | Such a frame with up to 8 consecutive bits changed is dropped, with two exceptions: the second byte of an escaped 0xAA may become anything but 1, which changes nothing; and the second byte of an escaped 0x55 may change if the plain byte behind it changes by 0x35. |
| `WireDamage.BurstGetsThrough` | avatar/interfaces/avatar_stub/avatar_protocol_lowlevel.py:56-63 | In every frame whose payload begins with 55 00, changing 01 00 on the wire to 81 35 is such an exception: a wrong body is accepted. |
| `WireDamage.NextFrameLost` | avatar/interfaces/avatar_stub/avatar_protocol_lowlevel.py:45-57 | A byte that becomes 0xAA in front of the marker takes the next, intact frame with it. |
| `Messages.MessageRoundTrip` | avatar/interfaces/avatar_stub/avatar_messages.py:34-164 | Over the whole message table: a message comes back as it was, checksum byte behind it notwithstanding, if and only if its layout has a fixed length and its fields fit; so not for writes of 1 or 2 bytes, untyped writes and read replies, or pages other than 64 bytes, and for a page to insert only if all its bytes are the checksum. |
| `Messages.ShortWriteLost` | avatar/interfaces/avatar_stub/avatar_messages.py:41-48 | Writing 5 as one byte to address 0 is a case in which it does not. |
| `MessageBytes.AddressedBytes` | avatar/interfaces/avatar_stub/avatar_messages.py:35-74 | The bytes of the requests that carry an address: opcodes 01, 05, 06 and 07, the address least significant first, and what follows; refused exactly if the address does not fit. |
| `MessageBytes.WriteBytes` | avatar/interfaces/avatar_stub/avatar_messages.py:41-48 | The bytes of a memory write: opcode 02, the address, the size, and the value in one, two or four bytes; refused exactly if the value does not fit. |
| `MessageBytes.PageBytes` | avatar/interfaces/avatar_stub/avatar_messages.py:75-134 | The bytes of the messages that carry a page address: opcodes 10, 11, 12 and A4. |
| `MessageBytes.RegisterBytes` | avatar/interfaces/avatar_stub/avatar_messages.py:52-152 | The bytes of the messages that carry a register value: opcodes 04 and 91. |
| `MessageBytes.OctetBytes` | avatar/interfaces/avatar_stub/avatar_messages.py:108-146 | The bytes of the messages of an opcode and one byte: 03, 21, A0, 81, 82 and B2. |
| `MessageBytes.PlainBytes` | avatar/interfaces/avatar_stub/avatar_messages.py:94-164 | The bytes of the messages that are packed as they are, and the four that cannot be packed. |
| `MessageBytes.ListBytes` | avatar/interfaces/avatar_stub/avatar_messages.py:85-158 | The bytes of a memory map and of a list of page addresses: the count, then the words one behind the other. |
| `MessageBytes.ParsedAddressed` | avatar/interfaces/avatar_stub/avatar_messages.py:35-152 | What the parser makes of opcodes 01, 02, 05, 06, 07, 10, 11, 12, A4 and 91, field by field. |
| `MessageBytes.ParsedOthers` | avatar/interfaces/avatar_stub/avatar_messages.py:49-161 | What it makes of opcodes 03, 04, 21, A0, 81, 82, B2, 92 and 94. |
| `MessageBytes.ParsedConfig` | avatar/interfaces/avatar_stub/avatar_messages.py:97-107 | What it makes of an exception configuration, which fails as soon as a vector is there. |
| `MessageBytes.ParsedRequest` | avatar/interfaces/avatar_stub/avatar_messages.py:262-283 | Which request a body is parsed as, if it is, is decided by its first byte, for each request in both directions. |
| `MessageBytes.ParsedReply` | avatar/interfaces/avatar_stub/avatar_messages.py:262-283 | The same for each message from the stub. |
| `Messages.LinkRoundTrip` | avatar/interfaces/avatar_stub/avatar_messages.py:243-283 | Serialized, framed, received and parsed, a sequence of such messages arrives as it was. |
| `Messages.ReadReplyValue` | avatar/interfaces/avatar_stub/avatar_messages.py:147-149 | A memory reply is the little-endian value of its bytes, zero-extended, of which at most four count. |
| `Messages.ParseOutcome` | avatar/interfaces/avatar_stub/avatar_messages.py:262-283 | An opcode error exactly for opcodes outside the table; a parsed message has the opcode it came with; long bodies never run out of data, and end in a type error exactly for opcodes 13 and 20. |
| `StubProtocol.RunKeeps` | avatar/interfaces/avatar_stub/avatar_protocol.py:32-64 | The invariant holds after every interleaving: who holds each condition, where each command is, at most one answer in flight and for whom. |
| `StubProtocol.NotifyFindsWaiter` | avatar/interfaces/avatar_stub/avatar_protocol.py:57-62 | No wake-up is lost: every notification finds its caller waiting. |
| `StubProtocol.WokenHasOwnReply` | avatar/interfaces/avatar_stub/avatar_protocol.py:55-62 | A woken caller holds the stub's answer to its own command: an error, or the confirmation that this very command has. |
| `StubProtocol.TakenReply` | avatar/interfaces/avatar_stub/avatar_protocol.py:55-64 | Whenever the sender takes a reply, it is the one to its command; the caller is woken exactly if the reply is an error or the confirmation of that command, and abandoned otherwise. |
| `StubProtocol.ExpectedOpcodes` | avatar/interfaces/avatar_stub/avatar_protocol.py:85-188 | The replies each blocking call expects, by their numbers on the wire. |
| `StubProtocol.OpcodesDecide` | avatar/interfaces/avatar_stub/avatar_protocol.py:13 | Which messages are blocking commands, and that the asynchronous ones are 81, A4 and A0. |
| `StubProtocol.WaitingIsAccountedFor` | avatar/interfaces/avatar_stub/avatar_protocol.py:80-105 | A caller still waits only if its command is queued or being served, or its answer was of an unexpected name, or the sender timed out on it. |
| `StubProtocol.SenderIsNotLockedOut` | avatar/interfaces/avatar_stub/avatar_protocol.py:57-59 | The sender can acquire a condition exactly if the caller waits, and otherwise the caller is about to. |
| `StubProtocol.TransportKeeps` | avatar/interfaces/avatar_stub/avatar_protocol.py:32-36 | Stub and receiver neither lose nor reorder nor invent an answer. |
| `StubProtocol.AsynchronousInOrder` | avatar/interfaces/avatar_stub/avatar_protocol.py:32-36 | Asynchronous messages are handled once each and in order, and never taken for a reply. |
| `StubProtocol.ReturnedCall` | avatar/interfaces/avatar_stub/avatar_protocol.py:85-188 | A call that returns does so with the value, the data, the confirmation or the error of the stub's answer to it; no reply of the wrong kind gets through; setting a register returns even on an error. |
| `StubProtocol.CommandsInOrder` | avatar/interfaces/avatar_stub/avatar_protocol.py:38-49 | Over every interleaving: what was sent, then what the sender has taken, then the queue, is what was queued, in that order. |
| `StubProtocol.CommandsOnce` | avatar/interfaces/avatar_stub/avatar_protocol.py:38-49 | Every command is queued at most once, and so is sent at most once. |
| `MiParser.ParseStream.Peek` | avatar/bintools/gdb/parse_stream.py:33-36 | The next character without moving, or a failed assertion at the end. |
| `MiParser.ParseStream.NextChar` | avatar/bintools/gdb/parse_stream.py:38-45 | Moves exactly if the character is next and is not the last one of the text. |
| `MiParser.ParseStream.ExpectChar` | avatar/bintools/gdb/parse_stream.py:47-50 | Succeeds exactly on the expected character; moves in any case. |
| `MiParser.ParseStream.Skip` | avatar/bintools/gdb/parse_stream.py:30-31 | Refuses to move to the end of the text. |
| `MiParser.CString` | avatar/bintools/gdb/mi_parser.py:6-21 | The loop over a quoted text agrees with the grammar function, in value, position and error. |
| `MiParser.Variable` | avatar/bintools/gdb/mi_parser.py:75-86 | The same for a key. |
| `MiParser.ValueAt` | avatar/bintools/gdb/mi_parser.py:59-72 | The same for a value, whatever its kind; ends on every input. |
| `MiParser.TupleAt` | avatar/bintools/gdb/mi_parser.py:24-34 | The same for a tuple, with the closing brace of an empty one left unread. |
| `MiParser.ListAt` | avatar/bintools/gdb/mi_parser.py:37-56 | The same for a list of values or results. |
| `MiParser.ResultsAt` | avatar/bintools/gdb/mi_parser.py:89-104 | The same for results, where the last of equal keys counts. |
| `MiParser.ParseValue` | avatar/bintools/gdb/mi_parser.py:59-72 | A successful parse strictly advances and stays within the text. |
| `MiParser.ParseResults` | avatar/bintools/gdb/mi_parser.py:89-104 | So does parsing results. |
| `MiParser.PrintedValueRoundTrip` | avatar/bintools/gdb/mi_parser.py:6-104 | The parser inverts the MI printer: in every surrounding text it returns the value of what was printed and stops at its end. |
| `MiParser.PrintedRecordRoundTrip` | avatar/bintools/gdb/mi_parser.py:118-120 | The results of a record are read back up to the end of the line. |
| `MiParser.TupleExact` | avatar/bintools/gdb/mi_parser.py:29-34 | For printable parts and distinct keys a tuple is read back if and only if it is not empty and its first key begins with neither a comma nor a closing brace. |
| `MiParser.ResultListExact` | avatar/bintools/gdb/mi_parser.py:42-56 | The same for a list of results, with the five characters that a first key must not begin with. |
| `MiParser.QuotedTextExact` | avatar/bintools/gdb/mi_parser.py:6-21 | A quoted text is read up to its closing quote if and only if every backslash is followed by n, t, a backslash or a quote and no other quote occurs. |
| `MiParser.EscapeTable` | avatar/bintools/gdb/mi_parser.py:5-21 | The four escapes and what they stand for, in every surrounding text; any other is a key error. |
| `MiParser.KeyExact` | avatar/bintools/gdb/mi_parser.py:75-86 | A key is read if and only if it contains no equals sign. |
| `MiParser.FirstCharacter` | avatar/bintools/gdb/mi_parser.py:59-72 | The first character decides the kind of a value; any other ends in an unbound result, and the end of the text in a failed assertion. |
| `MiParser.Unfinished` | avatar/bintools/gdb/parse_stream.py:23-55 | Which error each kind of unfinished text ends in. |
| `MiParser.EmptyTupleLeavesBrace` | avatar/bintools/gdb/mi_parser.py:30-31 | An empty tuple is read without its closing brace, in every surrounding text. |
| `MiParser.EmptyListNeedsMore` | avatar/bintools/gdb/parse_stream.py:23-31 | An empty list is read if and only if it is not the last text. |
| `GdbDeframer.GdbLowlevelProtocol.Run` | avatar/interfaces/gdb/protocol_lowlevel.py:46-90 | The state after any chunks depends only on the bytes, not on how they were split. |
| `GdbDeframer.SendMessage` | avatar/interfaces/gdb/protocol_lowlevel.py:92-100 | The frame of a message: $, the message, #, and the sum of its bytes modulo 256 in two lower-case hex digits. |
| `GdbDeframer.ByteSumIsTotal` | avatar/interfaces/gdb/protocol_lowlevel.py:83-97 | The running sum modulo 256 is the sum of the bytes modulo 256. |
| `GdbDeframer.HexDigits` | avatar/interfaces/gdb/protocol_lowlevel.py:73-80 | Exactly the digits of both cases are accepted, with their values. |
| `GdbDeframer.FeedFrame` | avatar/interfaces/gdb/protocol_lowlevel.py:60-90 | Any complete frame, after anything that has not killed the thread: delivered and acknowledged if the sum of its bytes modulo 256 is the number in its digits, refused with '-' otherwise; a right one that is not ASCII kills the thread. |
| `GdbDeframer.FramedMessageDelivered` | avatar/interfaces/gdb/protocol_lowlevel.py:60-100 | A framed message without markers is delivered once and acknowledged. |
| `GdbDeframer.StreamDelivered` | avatar/interfaces/gdb/protocol_lowlevel.py:60-100 | So is each message of a sequence, in order. |
| `GdbDeframer.DeliveredWasFramed` | avatar/interfaces/gdb/protocol_lowlevel.py:60-90 | Nothing else is delivered: every delivered message stood in the input between its markers with its sum in hex behind it, in the order of the input. |
| `GdbDeframer.AcksMatch` | avatar/interfaces/gdb/protocol_lowlevel.py:82-90 | Positive answers and deliveries correspond one to one, but for the message that kills the thread. |
| `GdbDeframer.AnsweredExactly` | avatar/interfaces/gdb/protocol_lowlevel.py:60-90 | Read off the bytes alone: every complete frame is answered once and at once, with '+' if its sum is right and '-' if not, and nothing else is answered. |
| `GdbDeframer.DiesWhen` | avatar/interfaces/gdb/protocol_lowlevel.py:73-88 | The thread dies exactly on a byte in a checksum that is no hex digit and no start marker, or on a message with a right sum that is not ASCII, which has been acknowledged by then. |
| `GdbDeframer.SurvivesWhen` | avatar/interfaces/gdb/protocol_lowlevel.py:60-90 | Which inputs the thread survives, read off the bytes alone: those of which no beginning ends in a message between its markers and at most one digit, followed by neither a digit nor a start marker, or in a right frame that is not ASCII. |
| `MemoryRanges.MemoryRangeIdentifier.GetPage` | avatar/plugins/memory_range_identifier.py:38-50 | Allocating a page changes the meaning of no byte and no total; page keys are multiples of the page size. |
| `MemoryRanges.MemoryRangeIdentifier.WriteData` | avatar/plugins/memory_range_identifier.py:52-59 | Exactly the bytes of the access take the bytes of the value; refused exactly for odd sizes and across pages. |
| `MemoryRanges.MemoryRangeIdentifier.ReadCachedData` | avatar/plugins/memory_range_identifier.py:61-75 | The little-endian value of the stored bytes, or nothing if one was never written; changes no byte. |
| `MemoryRanges.MemoryRangeIdentifier.MarkData` | avatar/plugins/memory_range_identifier.py:77-85 | Exactly one counter kind goes up by one on exactly the bytes of the access, and its total by the size. |
| `MemoryRanges.MemoryRangeIdentifier.AddMemoryReadAccess` | avatar/plugins/memory_range_identifier.py:115-125 | Over any run the pages agree byte for byte with the flat map and counts of the run, and each counter kind sums to the sizes of its accesses; the bytes change exactly if the value is not 0 and differs from what had been written. |
| `MemoryRanges.MemoryRangeIdentifier.AddMemoryWriteAccess` | avatar/plugins/memory_range_identifier.py:128-133 | Keeps the same agreement. |
| `MemoryRanges.MemoryRangeIdentifier.AddProgramCounterValue` | avatar/plugins/memory_range_identifier.py:107-113 | Keeps the same agreement, with 2 bytes for a Thumb instruction and 4 otherwise. |
| `MemoryRanges.MemoryRangeIdentifier.AddStackPointerValue` | avatar/plugins/memory_range_identifier.py:102-105 | Keeps the same agreement, with 4 bytes. |
| `MemoryRanges.CachedUnlessUnwritten` | avatar/plugins/memory_range_identifier.py:69-73 | A cached read is nothing exactly when some byte of it was never written. |
| `MemoryRanges.UnwrittenMeansNeverWritten` | avatar/plugins/memory_range_identifier.py:115-133 | A byte counts as never written exactly when no write access covered it. |
| `MemoryRanges.ReadBack` | avatar/plugins/memory_range_identifier.py:52-75 | Reading back what was just written, or taken over from a read, gives its low bytes. |
| `MemoryRanges.MarkedAsIo` | avatar/plugins/memory_range_identifier.py:120-125 | A byte carries an io mark exactly when some read of it saw a value that was neither 0 nor what the bytes written before said. |
| `MemoryRanges.ReadAccessMeaning` | avatar/plugins/memory_range_identifier.py:115-125 | One read more: bytes and io counts change on the covered bytes exactly if the value is not 0 and differs from what had been written; the read count goes up in any case; nothing else. |
| `MemoryRanges.ReadAccessCached` | avatar/plugins/memory_range_identifier.py:120-125 | What can be read back after it: the low bytes of the value it took over, or what was there before. |
| `MemoryRanges.OtherAccessMeaning` | avatar/plugins/memory_range_identifier.py:102-133 | One access more of another kind: which bytes it changes and which one counter it raises, on which bytes. |
| `MemoryRanges.ByteOrder` | avatar/plugins/memory_range_identifier.py:52-75 | Bytes are taken from a value least significant first. |
| `MemoryRanges.CachedBytes` | avatar/plugins/memory_range_identifier.py:61-75 | And put together least significant first. |

## Left out

- LLVM itself: the disassembler, the module verifier, the JIT and code-size scan, and undefined or poison results. IRBuilder may fold an instruction with constant operands; here it is emitted.
- The order in which independent instructions without effects are appended within one translator follows the source only up to such reorderings.
- Emitters.UnitBuilder.TranslateShift: LSL by 0 is a different opcode without a translator and is no instruction here.
- Emitters.UnitBuilder.TranslateLoadLiteral: correct for constant code memory only; the simulation carries that as a condition on each step.
- Translator.BinaryTranslator.Translate: an encoding that the disassembler rejects but that looks like BX becomes an unknown opcode, because BX has no translator; which addresses those are is part of the program. After an exception the graph is left as it is and nothing is promised about it.
- Translator.TranslationUnitCache.FindCreate: one function and one translator; the cache is a process-wide singleton in the source.
- Emitters.UnitBuilder.GenEntry: the two loads of the access handlers are not modelled; the handlers are taken to read and write memory little endian.
- The superseded translation path: PathState, PathsManager, BasicBlockCache, FunctionCache, translate_arm.cpp, and the translators that are commented out.
- Conditions.CompareAndBranch: for the ten conditions that compare; MI, PL, VS and VC test one flag and are covered by GetCondition.
- Messages.MessageRoundTrip: the page addresses of opcode 93 are computed when they are first used, and fail then; the model keeps the bytes. That packing a received memory value fails is one error value here.
- StubProtocol.RunKeeps: safety only. A reply of an unexpected name or a timeout leaves its caller blocked for good, and get_register on the receiving thread would wait for itself.
- StubProtocol.ReturnedCall: the two assertions on sizes above 255, which fail before anything is queued.
- The page-fault and exception branches for asynchronous messages call methods that the class does not define; here every asynchronous message is only recorded. The lock around sending then has a single user and is not modelled.
- Framing.Receiver.Run: select, recv and the stop flag; a finite stretch of the byte stream is fed instead, and a closed socket, on which recv returns nothing, does not occur.
- WireDamage.WireBurst: damage that creates or destroys a 0x55 or a 0xAA; NextFrameLost is one such case, and Resynchronised says when the receiver recovers.
- GdbDeframer.SendMessage: the message is given as bytes; a text that is not ASCII raises before anything is sent.
- MiParser.TupleExact: exact for parts that are printable themselves; for parts that are not, at any depth, only PrintedValueRoundTrip's direction is stated.
- MiParser.ResultsAt: the line splitting and regular expressions of Async, Result and Stream records. The order of keys in a dictionary is not kept.
- MemoryRanges.MemoryRangeIdentifier.GetPage: int(address / page_size) is integer division here; above 2^53 the source rounds. Page lists are sequences in a map, replaced rather than updated in place.
- MemoryRanges.MemoryRangeIdentifier.AddMemoryReadAccess: the event dispatch, which passes no value for reads, and _get_pageinfo, which uses a module that is not imported.
- AvatarstubTarget, GdbServer, the GdbProtocol client, S2E configuration, process launching, telnet, logging, and the C and Python bindings, which would add only easy members.
