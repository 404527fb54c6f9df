# A verified model of the wge100 camera

The wge100 is a camera that sends images over UDP. Its firmware is written in Forth for a small stack
processor, the J1, and compiled by a cross-compiler of its own; the Ethernet MAC and the processor are
in Verilog; the host driver is in C and C++. This project models these parts in Dafny and proves what
they are for:

- **Compiler and processor** (`J1`, `Forth`, `CodeGen`, `CrossJ1`, `Correctness`, `Peephole`, `Toolchain`,
  `BaseWords`, `NucWords`, `NucRuns`). `Forth` gives the structured programs their meaning: data stack, memory and bus exactly as
  on the processor, the return stack one word at a time; loops and calls are bounded by fuel that every
  statement quantifies over, so that it covers every stretch of a program that runs for ever. `CrossJ1`
  is the compiler, with its memory, its labels and branches patched in place. What it leaves in memory
  runs on `J1` with that meaning, and its peephole is invisible. `BaseWords` says what the operations of the ALU
  compute, `NucWords` what words built from them leave, and `NucRuns` takes division and double-cell addition from
  their definitions to the processor.
- **Coroutines** (`Primitives`, `Stacks`, `Snapshots`, `SwitchCode`, `ProgressWord`, `PauseWord`, `Continuation`).
  The two switches that save and restore both stacks, instruction by instruction on the exact machine: `Stacks` has
  the rings of 32 cells, `Snapshots` what one instruction does to the known top cells of both, `SwitchCode` the cells of
  code and the store of a task.
- **Video** (`VideoPackets`, `VideoReceiver`, `VideoSocket`, `VideoRecovery`, `VideoStream`, `VideoHistory`,
  `VideoSender`, `EndToEnd`). The camera sends the lines of a frame, the xor of all of them and an end-of-frame
  packet; the channel drops packets; the receiver repairs one lost line. `VideoReceiver` is the receiver as a step
  function, `VideoSocket` the nested loops over buffers that compute it, `VideoRecovery` is about one frame,
  `VideoStream` about streams, and `EndToEnd` puts camera, channel and receiver together.
- **CRC** (`Crc`). Generator and checker of the MAC.
- **Arithmetic** (`Words`, `Division`, `NumberText`, `Checksum`, `Blanking`). Division with a signed
  comparison, number text, one's-complement checksums, and the search for blanking times.
- **State** (`ArpCache`, `FrameTime`, `Retries`, `CyclicList`, `CamList`).

Words of the firmware are integers below 65536 with every wrap-around written out; the CRC works on bit
vectors. Packets arrive as a sequence of values, and the frame handler is the sequence of its reports.

## What the code does otherwise than its documentation says

- A frame whose only lost row is the last one is repaired at row -1, before the buffer
  (`VideoRecovery.LastRowLost`).
- After a lost end of frame the first row that arrives is counted as one line wherever it stands. If row 0 alone is
  lost then, and the xor packet is there, a wrong row is repaired and the frame is not flagged; in a frame of two rows
  the repair is at row -1 (`VideoRecovery.HandedOverAfterCarriedRow`).
- `pause` and `progress` put their own cells on the stacks that they move: above a depth that depends on the task,
  the caller's lowest cell is lost (`Continuation.ProgressSpills`, `Continuation.ProgressSinks`,
  `Continuation.PauseSpills`, `Continuation.PauseSinks`).
- After a lost end of frame the frame has the number of the packet that revealed it, except when that ends in 0xFFFF:
  then the upper half of the next number is or'ed in (`VideoReceiver.ResynchronisedIff`).
- `um/mod` and `m*/mod` are exact for divisors up to 16384 only (`Division.UmModExactIff`,
  `Division.MStarExactIff`).
- `>number` keeps only the low cell of what it has read (`NumberText.RoundTripIff`), and holds one return cell more
  for each digit, which in base 2 the return stack has no room for (`NumberText.BinaryDepth`).
- A UDP checksum that comes out as zero is sent as zero, which RFC 768 reserves (`Checksum.FieldZeroIff`,
  `Checksum.SomeFieldZero`).
- A flash or sensor write that runs out of retries after a mismatch returns 0, where -2 is documented
  (`Retries.ZeroIsNotSuccess`, `Retries.NeverTakes`).
- The frame time filter does not set its count back when it gives up, and counts late frames since the last first one
  rather than in a row (`FrameTime.CountIsLate`, `FrameTime.GivesUpIff`, `FrameTime.GivesUpWithoutARow`).
- `wge100CamListGetEntry` gives the head for an index out of range, not the last entry
  (`CamList.Cameras.GetEntry`).

## Model

| member | source | states |
|---|---|---|
| `Toolchain.CompilerOutputRuns` | wge100_camera_firmware/src/firmware/crossj1.fs:213-281 | Whatever definitions have been compiled, a processor with that memory, called at a word, gets as far as the word's program gets with any fuel, with the same data stack, memory and bus accesses; and if the program ends, it is back at the caller with the return stack that was below the return address. |
| `Toolchain.FoldingIsInvisible` | wge100_camera_firmware/src/firmware/crossj1.fs:266-280 | The same definitions through the folding `;` and through the plain `return` of the same word: with any fuel both processors get as far, with the same data stack, bus accesses and data memory; and if the program ends, both return, each with the rest of its own return stack. |
| `Toolchain.DepthSeesFolding` | wge100_camera_firmware/src/firmware/crossj1.fs:266-270 | Why programs that read `dsp` are excluded: a word that only calls `dsp` gives another answer once its call is a jump, from every starting state. |
| `Toolchain.StoredIsCompiled` | wge100_camera_firmware/src/firmware/crossj1.fs:244-281 | The memory invariant of the compiler is what the correctness theorem needs of an image. |
| `NucRuns.DividesOnProcessor` | wge100_camera_firmware/src/firmware/nuc.fs:346-352 | um/mod from its definition to the processor: compiled with the words that it is made of, with or without folding, and called with a double cell and a divisor on the stack, the processor comes back with the quotient on top of the remainder, exact whenever the high cell is below a divisor of at most 16384, and with everything below, memory, bus and return stack as they were. |
| `NucRuns.AddsOnProcessor` | wge100_camera_firmware/src/firmware/nuc.fs:203-213 | The same for d+: the sum of two double cells modulo 2 to the 32. |
| `NucRuns.CompileNuc` | wge100_camera_firmware/src/firmware/nuc.fs:8-76 | Such a compiler exists: these definitions go through it one after the other. |
| `NucRuns.WordSize` | wge100_camera_firmware/src/firmware/crossj1.fs:266-281 | Folding saves one word exactly for words that end in a call, in an operation that leaves the return stack alone, or in an inverted literal. |
| `Correctness.CompiledWordRuns` | wge100_camera_firmware/src/hardware/verilog/j1.v:81-177 | A call of a compiled word gets as far as the structured run for every word, state, return stack below it and fuel, and returns to Target(return address / 2) if that run ends. |
| `Correctness.WordRuns` | wge100_camera_firmware/src/firmware/crossj1.fs:258-281 | The code of a word, in each of the ways `;` can end it, leads the machine to its caller with the outcome of the structured run. |
| `Correctness.ItemRuns` | wge100_camera_firmware/src/firmware/crossj1.fs:467-504 | Every structure (literal, ALU operation, call, if, if/else, until, while/repeat, again, exit) with its back-patched branches leads the machine where the structured semantics says. |
| `Correctness.LitRuns` | wge100_camera_firmware/src/firmware/crossj1.fs:213-222 | A literal pushes exactly its value, bit 15 set or not. |
| `Correctness.AluStep` | wge100_camera_firmware/src/hardware/verilog/j1.v:93-162 | One ALU instruction keeps the relation between machine and structured state, for every operation that stays within its own return cells. |
| `Correctness.FusedStep` | wge100_camera_firmware/src/firmware/crossj1.fs:261-264 | An operation with the return folded in is the operation and then the return, when it leaves the return stack alone. |
| `Correctness.CallStep` | wge100_camera_firmware/src/hardware/verilog/j1.v:145-173 | A call leaves the caller's cells and 2 * (pc + 1) under the word called. |
| `Correctness.ViewMoved` | wge100_camera_firmware/src/hardware/verilog/j1.v:130-144 | The circular return stack, read from the top, after each combination of delta and write. |
| `Peephole.FoldedWordAgrees` | wge100_camera_firmware/src/firmware/crossj1.fs:258-281 | Two machines with the plain and the folded image of the same definitions, from the same data and with return stacks of their own, get equally far with the same data, and return if the program ends. |
| `Peephole.WordKept` | wge100_camera_firmware/src/firmware/crossj1.fs:266-280 | Whatever point a structured run of a word reaches when final calls are calls, it reaches when they are jumps, with fewer return cells in use. |
| `Peephole.JumpKept` | wge100_camera_firmware/src/firmware/crossj1.fs:260-260 | The same for the word that ends in the call itself. |
| `Forth.WordDetermined` | wge100_camera_firmware/src/firmware/crossj1.fs:467-504 | Fuel is only a bound: with whatever fuel a word ends, it ends in the same way. |
| `CodeGen.PeepholeIsWordCode` | wge100_camera_firmware/src/firmware/crossj1.fs:258-276 | The look-back at the last word and the label table amounts to the structural rule: a last call becomes a jump, a last operation that leaves the return stack alone takes the return, the end of a branch or loop is never mistaken for either. |
| `CodeGen.PlainIsWordCode` | wge100_camera_firmware/src/firmware/crossj1.fs:277-279 | The plain branch lays down the program and a return. |
| `CodeGen.LastWord` | wge100_camera_firmware/src/firmware/crossj1.fs:259-263 | Which items leave a word that `prevcall?` or `prevsafe?` accepts. |
| `CodeGen.OrReturn` | wge100_camera_firmware/src/firmware/crossj1.fs:264-264 | Or-ing the return bit and r-1 into such an operation encodes exactly that operation with both. |
| `CrossJ1.Compiler.Define` | wge100_camera_firmware/src/firmware/crossj1.fs:244-281 | A definition adds its word code to memory and its address to the dictionary, and keeps every earlier word's code in place. |
| `CrossJ1.Compiler.CompileItem` | wge100_camera_firmware/src/firmware/crossj1.fs:467-504 | The compiling words of a structure, with branches left open and resolved in place, lay down its code; a label stands behind it exactly after then and repeat. |
| `CrossJ1.Compiler.Literal` | wge100_camera_firmware/src/firmware/crossj1.fs:213-222 | One word below 0x8000, else the complement and an inversion. |
| `CrossJ1.Compiler.Resolve` | wge100_camera_firmware/src/firmware/crossj1.fs:472-474 | Or-ing the address into the open branch gives that branch to here. |
| `CrossJ1.Compiler.Else` | wge100_camera_firmware/src/firmware/crossj1.fs:481-486 | Lays down an open jump and resolves the if to the cell behind it. |
| `CrossJ1.Compiler.Repeat` | wge100_camera_firmware/src/firmware/crossj1.fs:500-504 | Jumps back and resolves the while to the cell behind. |
| `CrossJ1.Compiler.Semi` | wge100_camera_firmware/src/firmware/crossj1.fs:266-281 | Rewrites the last cell or lays down a return, by the look-back alone. |
| `CrossJ1.Compiler.Colon` | wge100_camera_firmware/src/firmware/crossj1.fs:244-251 | Sets a label and gives the next word the present address. |
| `CrossJ1.StoreMore` | wge100_camera_firmware/src/firmware/crossj1.fs:244-251 | A new definition leaves the code of all earlier words as it was. |
| `J1.Core.Clock` | wge100_camera_firmware/src/hardware/verilog/j1.v:81-192 | One clock of the registers, stacks and RAM in place is the step function. |
| `J1.Core.ClockAlu` | wge100_camera_firmware/src/hardware/verilog/j1.v:93-128 | The ALU instruction, with RAM written at the address in the new top. |
| `J1.DecodeEncode` | wge100_camera_firmware/src/firmware/crossj1.fs:103-129 | The fields the processor decodes are those the assembler words or together. |
| `J1.RunAdd` | wge100_camera_firmware/src/hardware/verilog/j1.v:179-192 | Runs compose. |
| `J1.MovedIs` | wge100_camera_firmware/src/hardware/verilog/j1.v:141-142 | Stack pointers have five bits, and the two-bit deltas are sign-extended to five before they are added. |
| `BaseWords.TwoToR` | wge100_camera_firmware/src/firmware/basewords.fs:30-32 | 2>r moves two cells and keeps their order. |
| `BaseWords.TwoRFrom` | wge100_camera_firmware/src/firmware/basewords.fs:27-29 | 2r> brings back exactly what 2>r put away. |
| `BaseWords.TwoRFetch` | wge100_camera_firmware/src/firmware/basewords.fs:33-39 | 2r@ copies the two cells and leaves the return stack as it was. |
| `BaseWords.Store` | wge100_camera_firmware/src/firmware/basewords.fs:21-22 | ! writes the second cell to the address on top, on the bus and in RAM below 0x4000, and drops both. |
| `BaseWords.FetchRuns` | wge100_camera_firmware/src/firmware/basewords.fs:20-20 | @ reads memory below 0x4000 without an access, and the bus from there on, with one. |
| `BaseWords.LessRuns` | wge100_camera_firmware/src/firmware/basewords.fs:10-10 | < leaves all ones if the cell below, in two's complement, is less than the one on top, and zero otherwise. |
| `BaseWords.ULessRuns` | wge100_camera_firmware/src/firmware/basewords.fs:11-11 | u< does so for the cells as they are. |
| `BaseWords.EqualRuns` | wge100_camera_firmware/src/firmware/basewords.fs:9-9 | = leaves all ones for equal cells and zero for others. |
| `BaseWords.OrRuns` | wge100_camera_firmware/src/firmware/basewords.fs:7-7 | Each bit is set exactly if it is set in one of the two cells. |
| `BaseWords.AndRuns` | wge100_camera_firmware/src/firmware/basewords.fs:6-6 | Each bit is set exactly if it is set in both. |
| `BaseWords.XorRuns` | wge100_camera_firmware/src/firmware/basewords.fs:5-5 | Each bit is set exactly if it is set in one only. |
| `BaseWords.InvertRuns` | wge100_camera_firmware/src/firmware/basewords.fs:8-8 | Each of the sixteen bits is turned over. |
| `BaseWords.PlusRuns` | wge100_camera_firmware/src/firmware/basewords.fs:4-4 | The sum, less 65536 if it does not fit. |
| `BaseWords.DecRuns` | wge100_camera_firmware/src/firmware/basewords.fs:26-26 | One less, and all ones for zero. |
| `BaseWords.RShiftRuns` | wge100_camera_firmware/src/firmware/basewords.fs:25-25 | The quotient by the power of two that the low four bits of the count give. |
| `BaseWords.LShiftRuns` | wge100_camera_firmware/src/firmware/basewords.fs:24-24 | The product with it, as far as it fits in sixteen bits. |
| `BaseWords.DepthsRun` | wge100_camera_firmware/src/firmware/basewords.fs:23-23 | dsp leaves both depths, the one of the return stack in the upper byte. |
| `NucWords.UmModLeaves` | wge100_camera_firmware/src/firmware/nuc.fs:346-352 | What um/mod leaves, called from anywhere with enough room, is what sixteen steps of the restoring division compute. |
| `NucWords.DivstepLeaves` | wge100_camera_firmware/src/firmware/nuc.fs:329-344 | divstep, with its stack shuffling, its signed comparison and its two branches, is one such step. |
| `NucWords.DPlusLeaves` | wge100_camera_firmware/src/firmware/nuc.fs:203-213 | d+ keeps the upper sum on the return stack, finds the carry with u<, and leaves the sum of the double cells. |
| `NucWords.RotLeaves` | wge100_camera_firmware/src/firmware/nuc.fs:9-9 | rot brings the third cell to the top, and needs one return cell. |
| `NucWords.MinusLeaves` | wge100_camera_firmware/src/firmware/nuc.fs:69-69 | - leaves the difference modulo 65536. |
| `NucWords.AtLeastLeaves` | wge100_camera_firmware/src/firmware/nuc.fs:63-63 | >= compares in two's complement. |
| `Continuation.Alternates` | wge100_camera_firmware/src/firmware/continuation.fs:13-58 | Over every alternation of calls of progress and pause, on the exact machine: whatever the callers and the task do in between, as long as the task leaves its caller's cells alone and nobody writes the store, each call of progress leads to the task with exactly the cells it paused with on top of the caller's, and each call of pause leads behind the call of progress with the stacks the caller had there. The depths allowed are those that leave room for the words' own cells. |
| `ProgressWord.Progress` | wge100_camera_firmware/src/firmware/continuation.fs:35-55 | From its first instruction, stepped on the machine, progress leads to the task's return address with the saved cells on the caller's, for all depths that leave room: n + 3 + max(1, k) data cells in 33, and n + k + 2 return cells (1 without data cells) in 32. At either bound, a further cell of the caller underneath is lost, and what is there instead. |
| `PauseWord.Pause` | wge100_camera_firmware/src/firmware/continuation.fs:13-33 | The same for pause: it saves exactly the cells above the mark in the task's store, changes no other memory, and goes to the return address of progress with the caller's stacks; it needs as many data cells and 3 more return cells (2 without data cells); and again what a cell too many is written over with. |
| `Continuation.ProgressSpills` | wge100_camera_firmware/src/firmware/continuation.fs:35-55 | One data cell above the bound of progress: the caller's lowest cell, whatever it was, has become the address of the store once the task runs. |
| `Continuation.ProgressSinks` | wge100_camera_firmware/src/firmware/continuation.fs:35-55 | One return cell above it: the lowest has become the address of the task's first saved cell, or, for a task without data, a return address within progress. |
| `Continuation.PauseSpills` | wge100_camera_firmware/src/firmware/continuation.fs:13-33 | One data cell above the bound of pause: the caller's lowest cell comes back as the number of saved data cells, or as the task's lowest return cell when that number is below two. |
| `Continuation.PauseSinks` | wge100_camera_firmware/src/firmware/continuation.fs:13-33 | One return cell above it: the caller's lowest comes back as a return address within pause, or within minus for a task without data. |
| `Continuation.Launch` | wge100_camera_firmware/src/firmware/continuation.fs:57-58 | Sets up a task without data that will be entered at the address given. |
| `ProgressWord.LoadReturns` | wge100_camera_firmware/src/firmware/continuation.fs:39-44 | The loop puts the saved return cells on the return ring, last one first. |
| `ProgressWord.LoadData` | wge100_camera_firmware/src/firmware/continuation.fs:48-53 | The loop puts the saved data cells under the two addresses, with `-rot` through the return ring. |
| `PauseWord.SaveAll` | wge100_camera_firmware/src/firmware/continuation.fs:16-23 | The loop moves the data cells above the caller's to memory, with the counter on the return ring while a cell is stored. |
| `PauseWord.SaveReturns` | wge100_camera_firmware/src/firmware/continuation.fs:26-31 | The loop moves the return cells to memory. |
| `SwitchCode.Minus` | wge100_camera_firmware/src/firmware/nuc.fs:68-69 | `-` through `negate` and its jump to `1+`: the difference, with two return cells in use. |
| `SwitchCode.MinusRot` | wge100_camera_firmware/src/firmware/nuc.fs:10-10 | `-rot`, with two return cells in use, and what the upper one leaves behind. |
| `SwitchCode.CodedStore` | wge100_camera_firmware/src/firmware/continuation.fs:13-55 | A store outside the code leaves all of the code in place. |
| `Snapshots.OpSteps` | wge100_camera_firmware/src/hardware/verilog/j1.v:93-162 | One ALU instruction on the machine, seen on the known top cells of the two rings, for any number of cells underneath. |
| `Snapshots.Pops` | wge100_camera_firmware/src/hardware/verilog/j1.v:71-79 | A pop of a return ring in full use shows that the popped cell is now the next one underneath. |
| `Stacks.OnUnder` | wge100_camera_firmware/src/hardware/verilog/j1.v:69-79 | With all other cells of a ring in use, the cell above the top is the next one underneath. |
| `VideoSocket.VideoSocket.Receive` | wge100_camera/src/wge100lib/wge100lib.c:1679-1886 | The nested loops with their frame buffer, counters and flags, updated in place, report exactly what the receiver's step function reports on the packets. |
| `VideoSocket.VideoSocket.HandlePacket` | wge100_camera/src/wge100lib/wge100lib.c:1742-1862 | One packet. |
| `VideoSocket.VideoSocket.HandleEof` | wge100_camera/src/wge100lib/wge100lib.c:1797-1836 | Repair of a single missing row, or the short flag and the count of missing rows. |
| `VideoSocket.VideoSocket.HandleLine` | wge100_camera/src/wge100lib/wge100lib.c:1838-1862 | The bounds tests, the gap bookkeeping and the copy. |
| `VideoSocket.VideoSocket.StartFrame` | wge100_camera/src/wge100lib/wge100lib.c:1679-1700 | A cleared buffer, the next frame number, and the row carried over after a lost end of frame. |
| `VideoSocket.VideoSocket.RepairRow` | wge100_camera/src/wge100lib/wge100lib.c:1819-1828 | The in-place repair is the xor packet xored with all other rows. |
| `VideoSocket.VideoSocket.Xormem` | wge100_camera/src/wge100lib/wge100lib.c:308-312 | Xors one row of the buffer into another and changes nothing else. |
| `VideoRecovery.DeliveredIffRecoverable` | wge100_camera/src/wge100lib/wge100lib.c:1679-1862 | For every frame, loss pattern and receiver that starts the frame after an end of frame or at stream start: of what is sent, the channel delivers some packets in order, the end of frame among them, and the handler gets exactly the sent image, not flagged short, if and only if no row is lost or one row is, not the last, with the xor packet there. |
| `VideoRecovery.HandedOverIffRecoverable` | wge100_camera/src/wge100lib/wge100lib.c:1797-1862 | The same from any point of the frame, with what is reported otherwise: a flagged frame reports exactly the rows that never came and has received rows in place and zeros elsewhere; a lost last row leads out of bounds. |
| `VideoRecovery.StartIsMid` | wge100_camera/src/wge100lib/wge100lib.c:1639-1700 | At stream start, whatever the packet buffer held, the receiver is at the start of the first frame. |
| `VideoRecovery.HandedOverAfterCarriedRow` | wge100_camera/src/wge100lib/wge100lib.c:1693-1861 | For every frame whose first arriving row y reveals that the end of the frame before was lost, and every loss pattern: the handler gets exactly the sent image if and only if the losses are recoverable and row 0 is there, or blank in a frame of three rows or more; the repair is out of bounds exactly for a last row lost with row 0 there or, in a frame of two rows, for row 0 lost; otherwise the frame is flagged with the exact number of rows that never came, or, with row 0 alone lost, handed over with row 0 blank and row 1 the sum of rows 0 and 1, not flagged. |
| `VideoRecovery.WrongRepair` | wge100_camera/src/wge100lib/wge100lib.c:1819-1828 | With row 0 missing, the repair of row 1 gives the sum of rows 0 and 1. |
| `VideoRecovery.LastRowLost` | wge100_camera/src/wge100lib/wge100lib.c:1815-1828 | With only the last row lost no gap is on record, and the repair would address the row before the first. |
| `VideoStream.StreamHandedOver` | wge100_camera/src/wge100lib/wge100lib.c:1679-1883 | Over every stream of frames and every in-order choice of the packets that arrive, lost ends of frame included: exactly the reports that are due are made, each with the verdict of its own losses and of the way it was entered, until a repair would overrun the buffer. |
| `VideoStream.StreamFromStart` | wge100_camera/src/wge100lib/wge100lib.c:1639-1883 | The same from stream start, whatever the buffers held; frames that are lost whole before the first packet leave no trace. |
| `VideoStream.StreamIsDelivered` | wge100_camera/src/wge100lib/wge100lib.c:1737-1763 | The packets of a stream are what an in-order lossy channel makes of all that is sent. |
| `VideoStream.CutOff` | wge100_camera/src/wge100lib/wge100lib.c:1776-1783 | An xor packet or an end of frame that reveals a lost end of frame cuts the frame before off and is itself used up. |
| `EndToEnd.Session` | wge100_camera/src/wge100lib/wge100lib.c:1679-1883 | From the pixels of any sequence of frames, through the camera, any in-order lossy channel and the nested loops of the receiver: the handler gets exactly the reports that are due. |
| `EndToEnd.Film` | wge100_camera_firmware/src/firmware/mt9v.fs:441-555 | All that the camera puts on the wire for a sequence of frames. |
| `VideoRecovery.RowsArrive` | wge100_camera/src/wge100lib/wge100lib.c:1852-1861 | While rows arrive in increasing order, arrived plus missing is the last row plus one, and the missing row on record is the greatest absent one below it. |
| `VideoRecovery.ShortFrameReported` | wge100_camera/src/wge100lib/wge100lib.c:1829-1835 | What a flagged frame holds and reports. |
| `VideoRecovery.ArrivalsAreDelivered` | wge100_camera/src/wge100lib/wge100lib.c:1737-1763 | The arrivals the other statements speak of are what an in-order lossy channel keeps of the packets sent. |
| `VideoRecovery.CarriedRow` | wge100_camera/src/wge100lib/wge100lib.c:1693-1700 | What is reported of the frame before, and what the receiver has on its books after a row was carried over. |
| `VideoHistory.NoFrameMixing` | wge100_camera/src/wge100lib/wge100lib.c:1679-1862 | For every packet sequence, reordered and repeated ones included, that attempts no repair without a recorded gap: every row handed over came from a packet with the reported 16-bit frame number, or is zero or repaired. |
| `VideoHistory.ReportsInStep` | wge100_camera/src/wge100lib/wge100lib.c:1686-1700 | Over every run: after an end of frame the next reported number is one more than that packet's, in all 32 bits; after a lost one it is that of the packet that revealed it, if and only if that does not end in 0xFFFF or is the greatest number of all; and the low 16 bits are always in step. |
| `VideoHistory.FirstReport` | wge100_camera/src/wge100lib/wge100lib.c:1763-1766 | The first report has the number of the first packet. |
| `VideoHistory.RunInv` | wge100_camera/src/wge100lib/wge100lib.c:1702-1863 | The invariant behind it: where each row of the buffer comes from. |
| `VideoHistory.NextReport` | wge100_camera/src/wge100lib/wge100lib.c:1776-1800 | The number of the next report, from any state. |
| `VideoReceiver.StepEnds` | wge100_camera/src/wge100lib/wge100lib.c:1757-1850 | For every receiving state and every packet: the reception ends exactly for another size, an error, an overflow, an abort, a row of the expected frame that does not exist or one after too many, with the code that is returned; and a report is made exactly for a packet of another frame and for an end of frame that does not fail to be repaired. |
| `VideoReceiver.NothingAfter` | wge100_camera/src/wge100lib/wge100lib.c:1757-1787 | In a run there is no report from such a packet or any later one. |
| `VideoReceiver.EndedBy` | wge100_camera/src/wge100lib/wge100lib.c:1757-1850 | A reception that has ended was ended by such a packet. |
| `VideoReceiver.ResynchronisedIff` | wge100_camera/src/wge100lib/wge100lib.c:1698-1699 | The exact condition for the number after a lost end of frame to be the packet's. |
| `VideoReceiver.StoppedIsSilent` | wge100_camera/src/wge100lib/wge100lib.c:1865-1883 | Once the inner loop has been left for good nothing is reported, whatever still comes. |
| `VideoReceiver.RunAppend` | wge100_camera/src/wge100lib/wge100lib.c:1702-1883 | Runs over packets compose. |
| `VideoPackets.XorOthersIs` | wge100_camera/src/wge100lib/wge100lib.c:1820-1828 | The xor of all rows but one, xored with the xor of all rows, is that one. |
| `VideoPackets.SameOthers` | wge100_camera/src/wge100lib/wge100lib.c:1824-1828 | The repair does not depend on what was in the missing row's place. |
| `VideoSender.Camera.Capture` | wge100_camera_firmware/src/firmware/mt9v.fs:441-497 | However the pixels of a frame are split up on arrival, the packets on the wire are its lines, the xor of all lines and the end of frame, and the frame number advances. |
| `VideoSender.Camera.PixelsArrive` | wge100_camera_firmware/src/firmware/mt9v.fs:441-445 | More pixels of the frame in the FIFO, in whatever portions. |
| `VideoSender.Camera.SendLine` | wge100_camera_firmware/src/firmware/mt9v.fs:375-405 | For any even width of at least six that fits the RAM: the counted loop takes `WordsSent` words from the FIFO, sends them and xors exactly them into the RAM. |
| `VideoSender.Camera.XorlineErase` | wge100_camera_firmware/src/firmware/mt9v.fs:78-85 | Reading each word and xoring it into itself clears the RAM. |
| `VideoSender.Camera.XorlineWrite` | wge100_camera_firmware/src/hardware/verilog/topj1.v:339-366 | A write xors the word into the RAM and advances the pointer. |
| `VideoSender.Camera.FinishFrame` | wge100_camera_firmware/src/firmware/mt9v.fs:422-464 | The xor line, the end of frame and the next frame number. |
| `VideoSender.Camera.StartFrame` | wge100_camera_firmware/src/firmware/mt9v.fs:547-555 | A rising frame_valid expects line 0 and erases the RAM. |
| `VideoSender.XorLinesIsXorAll` | wge100_camera_firmware/src/firmware/mt9v.fs:375-405 | What the RAM has accumulated over k lines is the byte-wise xor of those lines. |
| `VideoSender.RamIsXorPacket` | wge100_camera_firmware/src/firmware/mt9v.fs:428-436 | The words read back are the data of the xor packet the receiver needs. |
| `VideoSender.PixelOrder` | wge100_camera_firmware/src/firmware/mt9v.fs:387-403 | Of each pixel pair the upper half goes out first. |
| `VideoSender.WordsSentIffMultipleOfFour` | wge100_camera_firmware/src/firmware/mt9v.fs:375-404 | That number is the line for widths that are a multiple of four and for no other even width. |
| `Crc.NewCrcIsEightSerialSteps` | wge100_camera_firmware/src/hardware/lib/mac/crc_gen.v:20-53 | The 32 parallel equations are eight serial steps of the CRC-32 polynomial. |
| `Crc.NewCrcLinear` | wge100_camera_firmware/src/hardware/lib/mac/crc_chk.v:12-45 | The update is linear in register and data. |
| `Crc.NewCrcInjective` | wge100_camera_firmware/src/hardware/lib/mac/crc_chk.v:12-45 | The update is injective in the register. |
| `Crc.RunInjective` | wge100_camera_firmware/src/hardware/lib/mac/crc_chk.v:9-45 | So is the run over any byte string. |
| `Crc.FcsAccepted` | wge100_camera_firmware/src/hardware/lib/mac/crc_gen.v:8-53 | For every byte string, feeding it and the four bytes shifted out by the generator leaves 0xC704DD7B in the checker (section 3.2.9 of IEEE 802.3). |
| `Crc.FourFcsBytes` | wge100_camera_firmware/src/hardware/lib/mac/crc_gen.v:10-18 | The residue is left from every register value. |
| `Crc.InitComplements` | wge100_camera_firmware/src/hardware/lib/mac/crc_gen.v:11-11 | From the register's first value, a message of at least four bytes gives what the message with its first four bytes complemented gives from zero (section 3.2.9 of IEEE 802.3). |
| `Crc.LeadingZero` | wge100_camera_firmware/src/hardware/lib/mac/crc_chk.v:9-9 | A zero byte put in front of a message always changes the register. |
| `Crc.FcsIsComplement` | wge100_camera_firmware/src/hardware/lib/mac/crc_gen.v:13-18 | The four bytes are the complement of the register, from the top bit on, each byte from its lowest bit. |
| `Crc.ReadyAgain` | wge100_camera_firmware/src/hardware/lib/mac/crc_gen.v:10-11 | Once they are out the register is what it was first. |
| `Crc.AcceptsIffFcs` | wge100_camera_firmware/src/hardware/lib/mac/crc_chk.v:10-10 | The checker accepts exactly the frames whose last four bytes the generator would send. |
| `Crc.BurstDetected` | wge100_camera_firmware/src/hardware/lib/mac/crc_chk.v:9-45 | Of two equal-length strings that differ only inside four consecutive bytes at most one is accepted. |
| `Crc.SendAndCheck` | wge100_camera_firmware/src/hardware/lib/mac/crc_gen.v:8-18 | Each byte of any message clocks both registers, then the four bytes that the generator presents while it shifts out clock the checker: it says good. |
| `Crc.WindowInjective` | wge100_camera_firmware/src/hardware/lib/mac/crc_chk.v:9-45 | Such strings reach different registers. |
| `Crc.CrcGen.Clock` | wge100_camera_firmware/src/hardware/lib/mac/crc_gen.v:10-11 | The clocked register: cleared, shifted out or stepped by a byte. |
| `Crc.CrcChk.Clock` | wge100_camera_firmware/src/hardware/lib/mac/crc_chk.v:9-9 | The same without the shift. |
| `Division.UmModExactIff` | wge100_camera_firmware/src/firmware/nuc.fs:60-65 | um/mod is exact on every dividend whose high cell is below the divisor if and only if the divisor is at most 16384, the bound that the signed >= forces. |
| `Division.UmModExact` | wge100_camera_firmware/src/firmware/nuc.fs:346-353 | Quotient and remainder of every such dividend. |
| `Division.UmMod` | wge100_camera_firmware/src/firmware/nuc.fs:346-353 | Sixteen unrolled steps compute the step function sixteen times. |
| `Division.DivStep` | wge100_camera_firmware/src/firmware/nuc.fs:329-344 | One step on the cells. |
| `Division.MStarExactIff` | wge100_camera_firmware/src/firmware/nuc.fs:368-381 | The same bound for m*/mod, and as sharp. |
| `Division.MStarExact` | wge100_camera_firmware/src/firmware/nuc.fs:368-381 | Exact quotient and remainder of the 48-bit product. |
| `Division.MStarSlashMod` | wge100_camera_firmware/src/firmware/nuc.fs:368-381 | The product in three cells and thirty-two steps of the loop. |
| `Division.TripleShift` | wge100_camera_firmware/src/firmware/nuc.fs:364-365 | t2* doubles three cells. |
| `Division.TripleProduct` | wge100_camera_firmware/src/firmware/nuc.fs:369-373 | The two partial products add up to the 48-bit product. |
| `Division.DPlus` | wge100_camera_firmware/src/firmware/nuc.fs:203-212 | The carry rule of d+ adds modulo 2^32. |
| `Division.DividesExactly` | wge100_camera_firmware/src/firmware/nuc.fs:329-353 | As many restoring steps as there are low bits leave quotient and remainder. |
| `NumberText.RoundTripIff` | wge100_camera_firmware/src/firmware/nuc.fs:481-497 | The text of a number is used up, and gives the number back if and only if the number without its last digit fits in one cell; the return cells that this takes are those of `NumberText.DepthOfText`. |
| `NumberText.WriteAndRead` | wge100_camera_firmware/src/firmware/nuc.fs:392-497 | The words one after the other, through the pad: the text is used up, and both cells come back exactly under that condition. |
| `NumberText.DepthOfText` | wge100_camera_firmware/src/firmware/nuc.fs:486-497 | Reading a written number back takes one return cell for each of its digits. |
| `NumberText.BinaryDepth` | wge100_camera_firmware/src/firmware/nuc.fs:486-497 | In base 2 these are at most k exactly for numbers below 2 to the k, so that 32 cells do not do for all double-cell numbers. |
| `NumberText.OtherBasesFit` | wge100_camera_firmware/src/firmware/nuc.fs:486-497 | In every other base 21 are enough. |
| `NumberText.ReadsAll` | wge100_camera_firmware/src/firmware/nuc.fs:485-497 | What reading makes of the last digit and of those before it. |
| `NumberText.Numeric.SharpS` | wge100_camera_firmware/src/firmware/nuc.fs:392-400 | #S holds exactly the digits of the number, for any double cell. |
| `NumberText.Numeric.Sharp` | wge100_camera_firmware/src/firmware/nuc.fs:396-397 | # divides both cells by the base and holds the remainder's digit. |
| `NumberText.Numeric.LessSharp` | wge100_camera_firmware/src/firmware/nuc.fs:392-392 | <# begins with an empty text. |
| `NumberText.Numeric.Hold` | wge100_camera_firmware/src/firmware/nuc.fs:394-394 | HOLD puts a character in front of the text. |
| `NumberText.ToNumber` | wge100_camera_firmware/src/firmware/nuc.fs:485-497 | The recursion of >number into itself reads digits until there is no more text or no more digit, and the return cells held are at most one more for each digit. |
| `NumberText.AddDigit` | wge100_camera_firmware/src/firmware/nuc.fs:489-491 | The high cell is dropped, the low one multiplied and the digit added. |
| `NumberText.DigitBack` | wge100_camera_firmware/src/firmware/nuc.fs:481-483 | DIGIT? undoes DIGIT in every base. |
| `NumberText.DigitIs` | wge100_camera_firmware/src/firmware/nuc.fs:393-393 | The digits are 0 to 9 and A to Z. |
| `NumberText.IsDigitIff` | wge100_camera_firmware/src/firmware/nuc.fs:481-483 | Exactly the digits below the base are read. |
| `NumberText.TextLength` | wge100_camera_firmware/src/firmware/nuc.fs:390-390 | A double cell never needs more than 33 characters of the pad. |
| `Checksum.Packet.Send` | wge100_camera_firmware/src/firmware/ip.fs:139-175 | What the receiver reads from a datagram with any payload, odd lengths included: destination before source, type, version, identification, flags, time to live and protocol, addresses and ports in their cells; the right lengths; the IP header and the datagram with its pseudo header adding up to multiples of 65535; and the payload. udp-checksum on it returns 0. |
| `Checksum.WrappedChecks` | wge100_camera_firmware/src/firmware/ip.fs:149-175 | The same as a statement about any packet whose checksum fields were zero. |
| `Checksum.OneCellChanged` | wge100_camera_firmware/src/firmware/ip.fs:165-165 | Of the packets that differ from an accepted one in one cell of the payload, only an exchange of all zeros and all ones is accepted. |
| `Checksum.AcceptedIff` | wge100_camera_firmware/src/firmware/ip.fs:149-165 | The receiver's test is that the covered cells add up to a multiple of 65535. |
| `Checksum.SumIsTotal` | wge100_camera_firmware/src/firmware/packet.fs:100-109 | The loop's sum is the plain sum modulo 65535 (section 2 of RFC 1071). |
| `Checksum.FieldZeroIff` | wge100_camera_firmware/src/firmware/ip.fs:174-174 | When the field is sent as zero, which RFC 768 reserves for no checksum. |
| `Checksum.SomeFieldZero` | wge100_camera_firmware/src/firmware/ip.fs:174-174 | Any packet with a payload becomes one whose field is sent as zero by the choice of one cell. |
| `Checksum.PlusAssociates` | wge100_camera_firmware/src/firmware/nuc.fs:219-221 | +1c is associative on 16-bit values. |
| `Checksum.PlusCommutes` | wge100_camera_firmware/src/firmware/nuc.fs:219-221 | +1c is commutative. |
| `Checksum.UdpChecksum` | wge100_camera_firmware/src/firmware/ip.fs:149-163 | Pads an odd datagram in place and complements the sum of datagram, addresses, protocol and length. |
| `Checksum.UdpWrapup` | wge100_camera_firmware/src/firmware/ip.fs:167-175 | The fields udp-wrapup fills, in order. |
| `Checksum.IpWrapup` | wge100_camera_firmware/src/firmware/ip.fs:62-70 | The length and the header checksum. |
| `Checksum.EncChecksum` | wge100_camera_firmware/src/firmware/packet.fs:100-109 | The complement of the sum of n cells. |
| `Checksum.Packet.Byte` | wge100_camera_firmware/src/firmware/packet.fs:29-38 | Appends one byte and keeps all earlier ones. |
| `Checksum.Packet.UdpHeader` | wge100_camera_firmware/src/firmware/ip.fs:42-60 | The same headers in the same cells, with zero lengths and checksums. |
| `Blanking.SetMode` | wge100_camera/src/wge100lib/mt9v.cpp:256-346 | The pair chosen minimises the distance from the target over all pairs in range that meet the data rate, the shortest line and then the longest vblank among equals, with 8 bits a byte at 16 MHz below 90 million; the modes that are refused; and the exit for no pair found is never taken. |
| `Blanking.Search` | wge100_camera/src/wge100lib/mt9v.cpp:305-340 | The loop over hblank keeps the best of all pairs with a shorter line. |
| `Blanking.TriedIsBest` | wge100_camera/src/wge100lib/mt9v.cpp:319-329 | For one line length, the rounded and clamped vblank does at least as well as any other. |
| `Blanking.LongerIsWorse` | wge100_camera/src/wge100lib/mt9v.cpp:321-326 | It is rounded up from halfway, so that every longer vblank is further off. |
| `Blanking.ScaleDoubles` | wge100_camera/src/wge100lib/mt9v.cpp:270-271 | Each step of binning doubles the pixels read. |
| `Blanking.RoundedClose` | wge100_camera/src/wge100lib/mt9v.cpp:321-321 | The rounded quotient is within half a divisor. |
| `Blanking.LongestFits` | wge100_camera/src/wge100lib/mt9v.cpp:311-317 | Every width from 1 to 752 has a line length that meets the data rate. |
| `Blanking.ErrorBound` | wge100_camera/src/wge100lib/mt9v.cpp:328-332 | The distance of what is tried is below INT_MAX for every target whose distance from the longest frame tried is an int, so the first pair that fits is taken. |
| `Blanking.NotMeasured` | wge100_camera/src/wge100lib/mt9v.cpp:328-332 | For a target any lower the longest line comes to INT_MAX or more and cannot be taken. |
| `ArpCache.LookupIff` | wge100_camera_firmware/src/firmware/arp.fs:107-117 | After any history from arp-reset, a lookup hits if and only if the address was learned, fewer than 255 learnings ago, with fewer than five other addresses learned since; and it has the hardware address learned last. |
| `ArpCache.Cache.LearnAndFind` | wge100_camera_firmware/src/firmware/arp.fs:94-117 | The words on the cache itself, for any responses and then a lookup. |
| `ArpCache.AlwaysDistinct` | wge100_camera_firmware/src/firmware/arp.fs:94-104 | Entries in use always have different addresses and different ages. |
| `ArpCache.LearnKeeps` | wge100_camera_firmware/src/firmware/arp.fs:219-230 | The invariant over every response: ages are learnings since, and an address is missing only when too old or when all five are younger. |
| `ArpCache.Cache.Handle` | wge100_camera_firmware/src/firmware/arp.fs:219-230 | A response goes to the entry that has its address or else to the oldest; other packets change nothing. |
| `ArpCache.Cache.Oldest` | wge100_camera_firmware/src/firmware/arp.fs:63-65 | An entry of the greatest age, of equals the last visited. |
| `ArpCache.Cache.Find` | wge100_camera_firmware/src/firmware/arp.fs:107-117 | The entry in use with that address. |
| `ArpCache.Cache.Write` | wge100_camera_firmware/src/firmware/arp.fs:94-104 | All entries get older, and the one written has age 0. |
| `ArpCache.Cache.Age` | wge100_camera_firmware/src/firmware/arp.fs:60-62 | Only entries in use get older. |
| `ArpCache.Cache.Reset` | wge100_camera_firmware/src/firmware/arp.fs:58-59 | All entries are marked unused. |
| `FrameTime.AnticipatedIsLeast` | wge100_camera/src/nodes/wge100_camera_node.cpp:173-221 | Over every run, the anticipated time is the least of arrival plus period times frames elapsed (16-bit numbers) over the frames since the last reset or since the window that the filter last gave up for. |
| `FrameTime.LeastSinceReset` | wge100_camera/src/nodes/wge100_camera_node.cpp:178-203 | From a reset on, as long as the filter does not give up, over all frames since. |
| `FrameTime.LeastAtRelock` | wge100_camera/src/nodes/wge100_camera_node.cpp:204-212 | When it gives up: the least since the last frame that was first or the last time it gave up. |
| `FrameTime.CountIsLate` | wge100_camera/src/nodes/wge100_camera_node.cpp:204-217 | Over every run the count is the number of late frames since the last frame that was before all that was anticipated, in a row or not, and whether the filter has given up in between or not. |
| `FrameTime.SomeFirst` | wge100_camera/src/nodes/wge100_camera_node.cpp:204-208 | There always has been such a frame. |
| `FrameTime.GivesUpIff` | wge100_camera/src/nodes/wge100_camera_node.cpp:209-217 | The filter gives up for a frame if and only if it is late and that number plus one exceeds the limit. |
| `FrameTime.GivesUpWithoutARow` | wge100_camera/src/nodes/wge100_camera_node.cpp:209-217 | For all settings with limits that are not negative there is a run that makes it give up although no two late frames follow one another. |
| `FrameTime.NeverAfterArrival` | wge100_camera/src/nodes/wge100_camera_node.cpp:215-220 | The time that is given to a frame is not after its arrival, and with a threshold for early frames that is not negative a frame marked as early keeps its own time. |
| `FrameTime.OutputNearAnticipated` | wge100_camera/src/nodes/wge100_camera_node.cpp:198-216 | The output is the anticipated time or the arrival time, and at most the late threshold after the anticipated one. |
| `FrameTime.OutputNotNegative` | wge100_camera/src/nodes/wge100_camera_node.cpp:173-220 | It is not negative when arrivals are not, so that the sign is free to mark early frames. |
| `FrameTime.OutputIs` | wge100_camera/src/nodes/wge100_camera_node.cpp:204-218 | A frame that is not late is given its arrival; a late one the least of the times predicted for it, over the frames that the filter goes by after it. |
| `FrameTime.FirstIff` | wge100_camera/src/nodes/wge100_camera_node.cpp:198-204 | A frame counts as first exactly if it comes before every time that the frames in the window predict. |
| `FrameTime.LateIff` | wge100_camera/src/nodes/wge100_camera_node.cpp:204-209 | It is late exactly if it comes after one of them by more than the threshold. |
| `FrameTime.EarlyIff` | wge100_camera/src/nodes/wge100_camera_node.cpp:193-197 | And early exactly if it comes before all of them by more than the other threshold. |
| `FrameTime.DeltaCounts` | wge100_camera/src/nodes/wge100_camera_node.cpp:176-176 | The difference of two frame numbers counts up to 65535 frames, across the wrap of their 16 bits. |
| `FrameTime.FilterAll` | wge100_camera/src/nodes/wge100_camera_node.cpp:173-221 | The filter object on any run of frames returns these times, negative for the early ones. |
| `FrameTime.FrameTimeFilter.Filter` | wge100_camera/src/nodes/wge100_camera_node.cpp:173-221 | The in-place filter computes the step function. |
| `FrameTime.FrameTimeFilter.Advance` | wge100_camera/src/nodes/wge100_camera_node.cpp:176-188 | The reset after too many skipped frames and the two minima moved on. |
| `Retries.FlashWriteBudget` | wge100_camera/src/wge100lib/wge100lib.c:1014-1063 | With a budget of n at most n writes and n + 1 reads are made; zero is returned with the counter positive exactly when the last page read is the requested one; any other code comes with the counter used up. |
| `Retries.SensorWriteBudget` | wge100_camera/src/wge100lib/wge100lib.c:1252-1278 | The same for the sensor write, with at most n reads. |
| `Retries.SensorWriteSpends` | wge100_camera/src/wge100lib/wge100lib.c:1252-1278 | Nothing is given up early: with fewer failed writes, failed reads and mismatches than budget the result is zero, the data is in place and the counter says how many are left; otherwise they are as many as the budget, ten for a null pointer, and the code is that of the last write or read. Without a budget the result is -2 and nothing is done. |
| `Retries.FlashWriteSpends` | wge100_camera/src/wge100lib/wge100lib.c:1014-1063 | The same for a page, with one failure more for the first read. |
| `Retries.ZeroIsNotSuccess` | wge100_camera/src/wge100lib/wge100lib.c:1058-1062 | With no budget and a page that differs, zero is returned though nothing was written. |
| `Retries.NothingToWrite` | wge100_camera/src/wge100lib/wge100lib.c:1023-1024 | A page that is right already is not written. |
| `Retries.NeverTakes` | wge100_camera/src/wge100lib/wge100lib.c:1026-1063 | Writes that never take use up the budget one write and one read at a time, and return zero. |
| `Retries.ReliableFlashWrite` | wge100_camera/src/wge100lib/wge100lib.c:1014-1063 | The loop entered in the middle computes the loop function. |
| `Retries.ReliableSensorWrite` | wge100_camera/src/wge100lib/wge100lib.c:1252-1278 | The sensor loop computes the same function from its head. |
| `Retries.ReliableRead` | wge100_camera/src/wge100lib/wge100lib.c:906-924 | The reading loop with the caller's counter. |
| `Retries.ReadSucceeded` | wge100_camera/src/wge100lib/wge100lib.c:913-923 | It returns zero exactly with budget left, having spent one for each failed read. |
| `CyclicList.InsertBetween` | wge100_camera/include/wge100_camera/list.h:66-74 | One cycle with the node in the place named, next and prev mutually inverse. |
| `CyclicList.ListAdd` | wge100_camera/include/wge100_camera/list.h:84-87 | The node comes first. |
| `CyclicList.ListAddTail` | wge100_camera/include/wge100_camera/list.h:97-100 | The node comes last. |
| `CyclicList.Unlink` | wge100_camera/include/wge100_camera/list.h:109-113 | One cycle without the node. |
| `CyclicList.ListDel` | wge100_camera/include/wge100_camera/list.h:120-125 | The same, and the node points nowhere. |
| `CyclicList.ListDelInit` | wge100_camera/include/wge100_camera/list.h:131-135 | The same, and the node is a list of its own. |
| `CyclicList.ListMove` | wge100_camera/include/wge100_camera/list.h:142-146 | Two cycles: without the node, and with it first. |
| `CyclicList.ListMoveWithin` | wge100_camera/include/wge100_camera/list.h:142-146 | Within one list the node comes first. |
| `CyclicList.ListMoveTail` | wge100_camera/include/wge100_camera/list.h:153-158 | Two cycles: without the node, and with it last. |
| `CyclicList.ListMoveTailWithin` | wge100_camera/include/wge100_camera/list.h:153-158 | Within one list the node comes last. |
| `CyclicList.Splice` | wge100_camera/include/wge100_camera/list.h:169-181 | All entries of one list between the head and the entries of the other. |
| `CyclicList.ListSpliceInit` | wge100_camera/include/wge100_camera/list.h:201-208 | The same for an empty list too, which is empty again afterwards. |
| `CyclicList.ListEmpty` | wge100_camera/include/wge100_camera/list.h:164-167 | Exactly when the head is alone. |
| `CamList.RunInOrder` | wge100_camera/src/wge100lib/list.c:65-162 | After any run of adding and deleting, serial numbers are unique and in the order in which they were added. |
| `CamList.Perform` | wge100_camera/src/wge100lib/list.c:65-162 | The operations on the list itself, from an empty one: it holds exactly what the run over numbered entries holds. |
| `CamList.RunSerials` | wge100_camera/src/wge100lib/list.c:65-162 | The run is the list operations one after the other. |
| `CamList.Cameras.Add` | wge100_camera/src/wge100lib/list.c:65-88 | A new serial number goes to the end, one that is there is refused. |
| `CamList.Cameras.Find` | wge100_camera/src/wge100lib/list.c:96-110 | The first index of the serial number, or -1. |
| `CamList.IndexOfIs` | wge100_camera/src/wge100lib/list.c:96-110 | What the index is: the first place of the serial number, or -1 if it stands nowhere. |
| `CamList.Cameras.GetEntry` | wge100_camera/src/wge100lib/list.c:123-134 | The entry at an index; an index out of range gives the head, not the last entry. |
| `CamList.Cameras.DelEntry` | wge100_camera/src/wge100lib/list.c:146-162 | Takes out the entry at an index, or returns -1. |
| `CamList.Cameras.NumEntries` | wge100_camera/src/wge100lib/list.c:171-182 | The number of entries. |
| `CamList.Cameras.DelAll` | wge100_camera/src/wge100lib/list.c:191-203 | Leaves the empty list. |

## Left out

- Toolchain.FoldingIsInvisible: programs that read the stack depth are excluded, with the reason proved, and so are programs that read or write cells that hold code.
- Correctness.ItemRuns: return cells are the word's own; a word that takes its caller's return address off the stack, as `execute` and `looptest` do, has no meaning here, and neither have the structures from `do` to `loop`, which are built on it.
- CrossJ1.Compiler.Define: addresses count cells, so the byte order within the target memory is not modelled, the masks 0xE000, 0x1FFF and 0x004C are written as bit fields, and the abort for addresses past 0x7FFF is replaced by the demand that the code fits the 8192 cells that branches reach.
- CrossJ1.Compiler.Colon: constants, variables, strings, tables, deferred words and words that fall through to the next one lay down data or share code and are not modelled.
- J1.Core.Clock: the answer of a device to a read is a function of all earlier accesses; wait states, a fetch that collides with a store to the same cell, and a reset in mid-run are not modelled.
- Continuation.Alternates: the cells of code are written out, not taken from CodeGen; the store lies apart from the code and the two variables; and what the callers and the task do in between is arbitrary but leaves the store, the code and the noted depths alone.
- VideoSocket.VideoSocket.Receive: the handler always wants more, packets are at least as long as their data, and sockets, timeouts, pings and time stamps of arrival are left out.
- VideoStream.StreamHandedOver: packets are lost but not reordered or repeated; `lineCount` counts arrivals, so repeated rows would break the accounting. Only the statement on frame mixing is about arbitrary sequences.
- VideoSender.Camera.Capture: the pixel FIFO is a sequence, the header words and the time and sensor fields of the packets are not modelled, and neither is the frame cut short when the FIFO overflows.
- Crc.FcsAccepted: the engines that feed the generator and the checker byte by byte depend on modules that are not part of this model.
- NumberText.ToNumber: text is a sequence of characters, and the return cells that the words called by >number use for themselves are not counted.
- Checksum.UdpChecksum: the datagram ends within the buffer of 1500 bytes, which the code does not test.
- Blanking.SetMode: integers stand for the floating-point division and rounding, and for the peak rate 8 * packet * 16e6 / tics; the register writes that follow are not modelled.
- FrameTime.FrameTimeFilter.Filter: real numbers stand for floating-point ones.
- Retries.ReliableFlashWrite: the camera's answers are arbitrary; its memory is not modelled, so that a write that succeeds says nothing about the next read.
- ArpCache.Cache.Handle: answering requests, issuing them and the path of `arp-seed` that bypasses the lookup are not modelled.
- CyclicList.ListDel: freed memory is not modelled, and list_splice without reinitialising, whose emptied head keeps stale pointers, is stated for non-empty lists as CyclicList.Splice.
- Sockets, ROS services, diagnostics, launch files, self tests and threads: input and output only.
- MAC engines, FIFOs, clock domains, I2C, SPI and UART: hardware timing.
- TCP, HTTP, syslog and the documentation tool: not built by the firmware's main file.
- URL parsing, hex upload, register caches and imager mode tables: would only add easy members.
